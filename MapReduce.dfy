/** The map, shuffle and reduce stages of the word count and the pipeline
    `map_reduce` that chains them.  A Python dict is an association list in
    insertion order, so dictionaries here are sequences of pairs whose keys
    are distinct. */
module MapReduce {
  import opened Normalize

  /** A (key, value) pair: what `map_function` emits and `reduce_function` returns. */
  datatype Pair = Pair(key: string, value: int)

  /** One item of the shuffled dictionary: a key and the list of its values. */
  datatype Group = Group(key: string, values: seq<int>)

  predicate Distinct(ks: seq<string>) {
    forall i, j :: 0 <= i < j < |ks| ==> ks[i] != ks[j]
  }

  /** The keys of a list of pairs, position by position. */
  function Keys(ps: seq<Pair>): (ks: seq<string>)
    ensures |ks| == |ps|
    ensures forall i :: 0 <= i < |ps| ==> ks[i] == ps[i].key
  {
    seq(|ps|, i requires 0 <= i < |ps| => ps[i].key)
  }

  function GroupKeys(gs: seq<Group>): (ks: seq<string>)
    ensures |ks| == |gs|
  {
    seq(|gs|, i requires 0 <= i < |gs| => gs[i].key)
  }

  /** How many pairs carry key `k`. */
  function Occurrences(ps: seq<Pair>, k: string): nat {
    multiset(Keys(ps))[k]
  }

  /** Position of the first occurrence of `k` in `ks`. */
  function FirstIndex(ks: seq<string>, k: string): (i: nat)
    requires k in ks
    ensures i < |ks| && ks[i] == k
    ensures forall j :: 0 <= j < i ==> ks[j] != k
  {
    if ks[0] == k then 0 else 1 + FirstIndex(ks[1..], k)
  }

  function Sum(xs: seq<int>): int {
    if xs == [] then 0 else xs[0] + Sum(xs[1..])
  }

  /** A list of 1s sums to its length. */
  lemma {:induction false} SumOfOnes(xs: seq<int>)
    ensures (forall i :: 0 <= i < |xs| ==> xs[i] == 1) ==> Sum(xs) == |xs|
  {
    if xs != [] {
      SumOfOnes(xs[1..]);
    }
  }

  // ---------------------------------------------------------------------
  // Map phase (lines 21-22 and 43-44)

  /** `map_function`: the lower-cased word with the count 1. */
  function MapFunction(word: string): (p: Pair)
    ensures p.value == 1
    ensures |p.key| == |word| && forall i :: 0 <= i < |word| ==> p.key[i] == Lower(word[i])
  {
    Pair(LowerWord(word), 1)
  }

  /** The first parallel map of `map_reduce`: one pair per word, in the
      order of the words. */
  function MapPhase(words: seq<string>): (ps: seq<Pair>)
    ensures |ps| == |words|
    ensures forall i :: 0 <= i < |words| ==> ps[i] == MapFunction(words[i])
  {
    if words == [] then [] else [MapFunction(words[0])] + MapPhase(words[1..])
  }

  // ---------------------------------------------------------------------
  // Shuffle (lines 25-29)

  /** The distinct keys of `ps` in the order in which they are first seen. */
  function FirstSeen(ps: seq<Pair>): (ks: seq<string>)
    ensures Distinct(ks)
    ensures forall k :: k in ks <==> k in Keys(ps)
  {
    if ps == [] then []
    else
      var init := ps[..|ps| - 1];
      var k := ps[|ps| - 1].key;
      assert Keys(ps) == Keys(init) + [k];
      var ks := FirstSeen(init);
      if k in ks then ks else ks + [k]
  }

  /** The values of the pairs with key `k`, in input order. */
  function ValuesOf(ps: seq<Pair>, k: string): (vs: seq<int>)
    ensures |vs| == Occurrences(ps, k)
  {
    if ps == [] then []
    else
      var init := ps[..|ps| - 1];
      var last := ps[|ps| - 1];
      assert Keys(ps) == Keys(init) + [last.key];
      ValuesOf(init, k) + (if last.key == k then [last.value] else [])
  }

  /** What `shuffle_function` returns: every distinct key once, in first-seen
      order, with the list of all its values. */
  function Shuffled(ps: seq<Pair>): seq<Group> {
    var ks := FirstSeen(ps);
    seq(|ks|, i requires 0 <= i < |ks| => Group(ks[i], ValuesOf(ps, ks[i])))
  }

  /** `shuffle_function`: one pass over the pairs, appending each value to
      the list of its key; a key seen for the first time gets a fresh list
      (the `defaultdict(list)` default) and takes the next place in the
      dictionary's insertion order. */
  method Shuffle(ps: seq<Pair>) returns (groups: seq<Group>)
    ensures groups == Shuffled(ps)
  {
    var order: seq<string> := [];
    var lists: map<string, seq<int>> := map[];
    var i := 0;
    while i < |ps|
      invariant 0 <= i <= |ps|
      invariant order == FirstSeen(ps[..i])
      invariant forall k :: k in lists <==> k in order
      invariant forall k :: k in lists ==> lists[k] == ValuesOf(ps[..i], k)
    {
      var p := ps[i];
      assert ps[..i + 1][..i] == ps[..i];
      if p.key !in lists {
        ValuesOfAbsent(ps[..i], p.key);
        order := order + [p.key];
      }
      var current := if p.key in lists then lists[p.key] else [];
      lists := lists[p.key := current + [p.value]];
      i := i + 1;
    }
    assert ps[..i] == ps;
    groups := seq(|order|, j requires 0 <= j < |order| => Group(order[j], lists[order[j]]));
  }

  lemma ValuesOfAbsent(ps: seq<Pair>, k: string)
    requires k !in Keys(ps)
    ensures ValuesOf(ps, k) == []
  {
    assert multiset(Keys(ps))[k] == 0;
  }

  /** Each key appears once, and the keys are exactly those of the input. */
  lemma ShuffledKeys(ps: seq<Pair>)
    ensures Distinct(GroupKeys(Shuffled(ps)))
    ensures forall k :: k in GroupKeys(Shuffled(ps)) <==> k in Keys(ps)
  {
    assert GroupKeys(Shuffled(ps)) == FirstSeen(ps);
  }

  /** Each key's list holds the values of exactly the pairs with that key, so
      its length is the key's number of occurrences. */
  lemma ShuffledGroups(ps: seq<Pair>)
    ensures forall g :: g in Shuffled(ps) ==>
      g.values == ValuesOf(ps, g.key) && |g.values| == Occurrences(ps, g.key) >= 1
  {
    forall g | g in Shuffled(ps)
      ensures g.values == ValuesOf(ps, g.key) && |g.values| == Occurrences(ps, g.key) >= 1
    {
      assert g.key in FirstSeen(ps);
      assert g.key in Keys(ps);
    }
  }

  /** The sum of the lengths of the lists. */
  function TotalLength(gs: seq<Group>): nat {
    if gs == [] then 0 else |gs[0].values| + TotalLength(gs[1..])
  }

  /** The occurrence counts of the keys `ks`, added up. */
  function SumOccurrences(ps: seq<Pair>, ks: seq<string>): nat {
    if ks == [] then 0 else Occurrences(ps, ks[0]) + SumOccurrences(ps, ks[1..])
  }

  lemma {:induction false} TotalLengthIsSumOccurrences(ps: seq<Pair>, gs: seq<Group>, ks: seq<string>)
    requires |gs| == |ks|
    requires forall i :: 0 <= i < |gs| ==> gs[i].key == ks[i] && |gs[i].values| == Occurrences(ps, ks[i])
    ensures TotalLength(gs) == SumOccurrences(ps, ks)
  {
    if gs != [] {
      TotalLengthIsSumOccurrences(ps, gs[1..], ks[1..]);
    }
  }

  /** How many times `k` occurs in `ks`. */
  function Indicator(ks: seq<string>, k: string): nat {
    if ks == [] then 0 else (if ks[0] == k then 1 else 0) + Indicator(ks[1..], k)
  }

  lemma {:induction false} IndicatorDistinct(ks: seq<string>, k: string)
    requires Distinct(ks)
    ensures Indicator(ks, k) == if k in ks then 1 else 0
  {
    if ks != [] {
      IndicatorDistinct(ks[1..], k);
      assert k in ks[1..] ==> ks[0] != k;
    }
  }

  lemma {:induction false} SumOccurrencesSnoc(ps: seq<Pair>, p: Pair, ks: seq<string>)
    ensures SumOccurrences(ps + [p], ks) == SumOccurrences(ps, ks) + Indicator(ks, p.key)
  {
    assert Keys(ps + [p]) == Keys(ps) + [p.key];
    if ks != [] {
      SumOccurrencesSnoc(ps, p, ks[1..]);
    }
  }

  /** Counting the occurrences of a complete list of distinct keys counts every pair once. */
  lemma {:induction false} SumOccurrencesAll(ps: seq<Pair>, ks: seq<string>)
    requires Distinct(ks)
    requires forall k :: k in Keys(ps) ==> k in ks
    ensures SumOccurrences(ps, ks) == |ps|
  {
    if ps == [] {
      SumOccurrencesEmpty(ks);
    } else {
      var init, last := ps[..|ps| - 1], ps[|ps| - 1];
      assert ps == init + [last];
      assert Keys(ps) == Keys(init) + [last.key];
      SumOccurrencesAll(init, ks);
      SumOccurrencesSnoc(init, last, ks);
      IndicatorDistinct(ks, last.key);
    }
  }

  lemma {:induction false} SumOccurrencesEmpty(ks: seq<string>)
    ensures SumOccurrences([], ks) == 0
  {
    if ks != [] {
      SumOccurrencesEmpty(ks[1..]);
    }
  }

  /** No pair is lost or duplicated: the list lengths add up to the number of pairs. */
  lemma ShuffledConserves(ps: seq<Pair>)
    ensures TotalLength(Shuffled(ps)) == |ps|
  {
    var ks := FirstSeen(ps);
    TotalLengthIsSumOccurrences(ps, Shuffled(ps), ks);
    SumOccurrencesAll(ps, ks);
  }

  /** Keys come out in the order of their first occurrence in the input. */
  lemma {:induction false} FirstSeenOrder(ps: seq<Pair>)
    ensures forall i, j :: 0 <= i < j < |FirstSeen(ps)| ==>
      FirstIndex(Keys(ps), FirstSeen(ps)[i]) < FirstIndex(Keys(ps), FirstSeen(ps)[j])
  {
    if ps != [] {
      var init, last := ps[..|ps| - 1], ps[|ps| - 1];
      assert Keys(ps) == Keys(init) + [last.key];
      FirstSeenOrder(init);
      var ks := FirstSeen(init);
      forall k | k in ks
        ensures FirstIndex(Keys(ps), k) == FirstIndex(Keys(init), k)
      {
        FirstIndexAppend(Keys(init), [last.key], k);
      }
      if last.key !in ks {
        assert FirstIndex(Keys(ps), last.key) == |init| by {
          assert Keys(ps)[|init|] == last.key;
          assert last.key !in Keys(init);
        }
      }
    }
  }

  lemma {:induction false} FirstIndexAppend(xs: seq<string>, ys: seq<string>, k: string)
    requires k in xs
    ensures FirstIndex(xs + ys, k) == FirstIndex(xs, k)
  {
    if xs[0] != k {
      assert (xs + ys)[1..] == xs[1..] + ys;
      FirstIndexAppend(xs[1..], ys, k);
    }
  }

  lemma ShuffledOrder(ps: seq<Pair>)
    ensures forall i, j :: 0 <= i < j < |Shuffled(ps)| ==>
      FirstIndex(Keys(ps), Shuffled(ps)[i].key) < FirstIndex(Keys(ps), Shuffled(ps)[j].key)
  {
    FirstSeenOrder(ps);
  }

  // ---------------------------------------------------------------------
  // Reduce phase (lines 32-34 and 50-51)

  /** `reduce_function`: the key unchanged with the sum of its list; an
      empty list sums to 0 and a list of 1s sums to its length. */
  function ReduceFunction(g: Group): (p: Pair)
    ensures p.key == g.key
    ensures g.values == [] ==> p.value == 0
    ensures (forall i :: 0 <= i < |g.values| ==> g.values[i] == 1) ==> p.value == |g.values|
  {
    SumOfOnes(g.values);
    Pair(g.key, Sum(g.values))
  }

  /** The second parallel map of `map_reduce`: one pair per
      group, in the order of the groups. */
  function ReducePhase(gs: seq<Group>): (ps: seq<Pair>)
    ensures |ps| == |gs|
    ensures forall i :: 0 <= i < |gs| ==> ps[i] == ReduceFunction(gs[i])
  {
    if gs == [] then [] else [ReduceFunction(gs[0])] + ReducePhase(gs[1..])
  }

  // ---------------------------------------------------------------------
  // The dict built from the reduced pairs (line 53)

  /** `d[p.key] = p.value`: an existing key keeps its place and takes the
      new value; a new key is appended. */
  function Assign(d: seq<Pair>, p: Pair): (d': seq<Pair>)
    requires Distinct(Keys(d))
    ensures Distinct(Keys(d'))
    ensures forall k :: k in Keys(d') <==> k in Keys(d) || k == p.key
    ensures Keys(d') == if p.key in Keys(d) then Keys(d) else Keys(d) + [p.key]
    ensures p in d'
    ensures p.key in Keys(d) ==> (|d'| == |d| &&
      forall i :: 0 <= i < |d| ==> d'[i] == if d[i].key == p.key then p else d[i])
    ensures p.key !in Keys(d) ==> d' == d + [p]
  {
    if p.key in Keys(d) then
      var j := FirstIndex(Keys(d), p.key);
      var d' := d[j := p];
      assert Keys(d') == Keys(d);
      d'
    else
      assert Keys(d + [p]) == Keys(d) + [p.key];
      d + [p]
  }

  /** The value of the last item whose key is `k`. */
  function LastValue(items: seq<Pair>, k: string): int
    requires k in Keys(items)
  {
    var init, last := items[..|items| - 1], items[|items| - 1];
    assert Keys(items) == Keys(init) + [last.key];
    if last.key == k then last.value else LastValue(init, k)
  }

  /** `dict(items)`: the items assigned one after the other. The keys come
      in order of first appearance, and a repeated key ends with the value
      of its last item. */
  function DictFromItems(items: seq<Pair>): (d: seq<Pair>)
    ensures Distinct(Keys(d))
    ensures forall k :: k in Keys(d) <==> k in Keys(items)
    ensures Keys(d) == FirstSeen(items)
    ensures forall i :: 0 <= i < |d| ==> d[i].key in Keys(items) && d[i].value == LastValue(items, d[i].key)
  {
    if items == [] then []
    else
      var init, last := items[..|items| - 1], items[|items| - 1];
      assert Keys(items) == Keys(init) + [last.key];
      Assign(DictFromItems(init), last)
  }

  /** Items with distinct keys become a dictionary with the same items in the same order. */
  lemma {:induction false} DictFromDistinctItems(items: seq<Pair>)
    requires Distinct(Keys(items))
    ensures DictFromItems(items) == items
  {
    if items != [] {
      var init, last := items[..|items| - 1], items[|items| - 1];
      assert items == init + [last];
      assert Keys(items) == Keys(init) + [last.key];
      assert Distinct(Keys(init)) by {
        assert forall i :: 0 <= i < |init| ==> Keys(init)[i] == Keys(items)[i];
      }
      assert last.key !in Keys(init) by {
        assert forall i :: 0 <= i < |init| ==> Keys(items)[i] != Keys(items)[|init|];
      }
      DictFromDistinctItems(init);
      assert DictFromItems(items) == Assign(init, last);
    }
  }

  // ---------------------------------------------------------------------
  // map_reduce (lines 37-53)

  function SumValues(d: seq<Pair>): int {
    if d == [] then 0 else d[0].value + SumValues(d[1..])
  }

  /** The lower-cased tokens, the keys the map phase emits. */
  function LoweredTokens(text: string): (ks: seq<string>)
    ensures |ks| == |Tokens(text)|
  {
    Keys(MapPhase(Tokens(text)))
  }

  /** The dictionary `map_reduce(text)` returns. */
  function WordFrequencies(text: string): seq<Pair> {
    DictFromItems(ReducePhase(Shuffled(MapPhase(Tokens(text)))))
  }

  /** `map_reduce`: normalise, map, shuffle, reduce, and build the dictionary. */
  method MapReduce(text: string) returns (freq: seq<Pair>)
    ensures freq == WordFrequencies(text)
    ensures SumValues(freq) == |Tokens(text)|
    ensures Distinct(Keys(freq))
    ensures forall k :: k in Keys(freq) <==> k in LoweredTokens(text)
    ensures forall i :: 0 <= i < |freq| ==> freq[i].value == multiset(LoweredTokens(text))[freq[i].key] >= 1
  {
    var cleaned := RemovePunctuation(text);
    var words := Split(cleaned);
    var mapped := MapPhase(words);
    var shuffled := Shuffle(mapped);
    var reduced := ReducePhase(shuffled);
    freq := DictFromItems(reduced);
    assert words == Tokens(text);
    assert freq == WordFrequencies(text);
    WordFrequenciesConserves(text);
    WordFrequenciesKeys(text);
    WordFrequenciesCounts(text);
  }

  lemma {:induction false} SumValuesReduced(gs: seq<Group>)
    requires forall i :: 0 <= i < |gs| ==> forall j :: 0 <= j < |gs[i].values| ==> gs[i].values[j] == 1
    ensures SumValues(ReducePhase(gs)) == TotalLength(gs)
  {
    if gs != [] {
      assert ReducePhase(gs)[1..] == ReducePhase(gs[1..]);
      SumValuesReduced(gs[1..]);
    }
  }

  /** Pairs whose values are all 1 have lists of 1s. */
  lemma {:induction false} ValuesOfOnes(ps: seq<Pair>, k: string)
    requires forall i :: 0 <= i < |ps| ==> ps[i].value == 1
    ensures forall j :: 0 <= j < |ValuesOf(ps, k)| ==> ValuesOf(ps, k)[j] == 1
  {
    if ps != [] {
      ValuesOfOnes(ps[..|ps| - 1], k);
    }
  }

  /** Reducing the shuffle of unit pairs gives, for each distinct key in
      first-seen order, its number of occurrences. */
  lemma ReducedCounts(ps: seq<Pair>)
    requires forall i :: 0 <= i < |ps| ==> ps[i].value == 1
    ensures |ReducePhase(Shuffled(ps))| == |FirstSeen(ps)|
    ensures forall i :: 0 <= i < |FirstSeen(ps)| ==>
      ReducePhase(Shuffled(ps))[i] == Pair(FirstSeen(ps)[i], Occurrences(ps, FirstSeen(ps)[i]))
    ensures forall i :: 0 <= i < |FirstSeen(ps)| ==> Occurrences(ps, FirstSeen(ps)[i]) >= 1
  {
    var ks := FirstSeen(ps);
    forall i | 0 <= i < |ks|
      ensures ReducePhase(Shuffled(ps))[i] == Pair(ks[i], Occurrences(ps, ks[i]))
      ensures Occurrences(ps, ks[i]) >= 1
    {
      ValuesOfOnes(ps, ks[i]);
      assert ks[i] in Keys(ps);
    }
  }

  /** The reduced items of the shuffled pairs have distinct keys, so `dict`
      keeps them as they are. */
  lemma PipelineDictionary(text: string)
    ensures WordFrequencies(text) == ReducePhase(Shuffled(MapPhase(Tokens(text))))
    ensures Keys(WordFrequencies(text)) == FirstSeen(MapPhase(Tokens(text)))
  {
    var ps := MapPhase(Tokens(text));
    var gs := Shuffled(ps);
    assert Keys(ReducePhase(gs)) == FirstSeen(ps);
    DictFromDistinctItems(ReducePhase(gs));
  }

  /** Conservation: the counts add up to the number of tokens. */
  lemma WordFrequenciesConserves(text: string)
    ensures SumValues(WordFrequencies(text)) == |Tokens(text)|
  {
    PipelineDictionary(text);
    ReducedSum(MapPhase(Tokens(text)));
  }

  /** Reducing the shuffle of unit pairs gives counts that add up to the number of pairs. */
  lemma ReducedSum(ps: seq<Pair>)
    requires forall i :: 0 <= i < |ps| ==> ps[i].value == 1
    ensures SumValues(ReducePhase(Shuffled(ps))) == |ps|
  {
    var gs := Shuffled(ps);
    forall i | 0 <= i < |gs|
      ensures forall j :: 0 <= j < |gs[i].values| ==> gs[i].values[j] == 1
    {
      ValuesOfOnes(ps, gs[i].key);
    }
    SumValuesReduced(gs);
    ShuffledConserves(ps);
  }

  /** Key uniqueness and the key set: the keys are the distinct lower-cased
      tokens, in the order they first occur. */
  lemma WordFrequenciesKeys(text: string)
    ensures Distinct(Keys(WordFrequencies(text)))
    ensures forall k :: k in Keys(WordFrequencies(text)) <==> k in LoweredTokens(text)
  {
    PipelineDictionary(text);
  }

  /** Each count is the number of occurrences of its lower-cased token, at least 1. */
  lemma WordFrequenciesCounts(text: string)
    ensures forall i :: 0 <= i < |WordFrequencies(text)| ==>
      WordFrequencies(text)[i].value == multiset(LoweredTokens(text))[WordFrequencies(text)[i].key] >= 1
  {
    var ps := MapPhase(Tokens(text));
    PipelineDictionary(text);
    ReducedCounts(ps);
  }

  /** Every key is a token: non-empty, lower-case, free of whitespace and punctuation. */
  lemma WordFrequenciesKeysAreTokens(text: string)
    ensures forall i :: 0 <= i < |WordFrequencies(text)| ==>
      var k := WordFrequencies(text)[i].key; IsWord(k) && NoPunct(k) && NoUpper(k)
  {
    WordFrequenciesKeys(text);
    LoweredTokensAreTokens(text);
    KeysAmong(WordFrequencies(text), LoweredTokens(text));
  }

  /** Keys drawn from a sequence of normalised tokens are normalised tokens. */
  lemma KeysAmong(d: seq<Pair>, ks: seq<string>)
    requires forall k :: k in Keys(d) ==> k in ks
    requires forall j :: 0 <= j < |ks| ==> IsWord(ks[j]) && NoPunct(ks[j]) && NoUpper(ks[j])
    ensures forall i :: 0 <= i < |d| ==> IsWord(d[i].key) && NoPunct(d[i].key) && NoUpper(d[i].key)
  {
    forall i | 0 <= i < |d|
      ensures IsWord(d[i].key) && NoPunct(d[i].key) && NoUpper(d[i].key)
    {
      assert d[i].key in Keys(d);
      var j :| 0 <= j < |ks| && ks[j] == d[i].key;
    }
  }

  lemma LoweredTokensAreTokens(text: string)
    ensures forall j :: 0 <= j < |LoweredTokens(text)| ==>
      var k := LoweredTokens(text)[j]; IsWord(k) && NoPunct(k) && NoUpper(k)
  {
    var ws := Tokens(text);
    var ks := LoweredTokens(text);
    forall j | 0 <= j < |ks|
      ensures IsWord(ks[j]) && NoPunct(ks[j]) && NoUpper(ks[j])
    {
      assert ks[j] == MapFunction(ws[j]).key == LowerWord(ws[j]);
      LowerWordKeepsToken(ws[j]);
    }
  }
}
