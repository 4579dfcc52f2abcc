/** The worked examples run end to end: from the text, through the
    word-count pipeline, to the ranking. */
module Scenarios {
  import opened Normalize
  import opened MapReduce
  import opened Ranking

  lemma TokensCounts()
    ensures Tokens("a a a b b c") == ["a", "a", "a", "b", "b", "c"]
  {
    var ws: seq<string> := ["a", "a", "a", "b", "b", "c"];
    assert NoPunct("a a a b b c");
    assert JoinWords(ws[5..]) == "c";
    assert JoinWords(ws[4..]) == "b c";
    assert JoinWords(ws[3..]) == "b b c";
    assert JoinWords(ws[2..]) == "a b b c";
    assert JoinWords(ws[1..]) == "a a b b c";
    assert JoinWords(ws) == "a a a b b c";
    assert forall i :: 0 <= i < |ws| ==> IsWord(ws[i]);
    SplitJoinWords(ws);
  }

  lemma FirstSeenCounts()
    ensures FirstSeen([Pair("a", 1), Pair("a", 1), Pair("a", 1), Pair("b", 1), Pair("b", 1), Pair("c", 1)])
      == ["a", "b", "c"]
  {
    var ps := [Pair("a", 1), Pair("a", 1), Pair("a", 1), Pair("b", 1), Pair("b", 1), Pair("c", 1)];
    assert ps[..1][..0] == [];
    assert FirstSeen(ps[..1]) == ["a"];
    assert ps[..2][..1] == ps[..1];
    assert FirstSeen(ps[..2]) == ["a"];
    assert ps[..3][..2] == ps[..2];
    assert FirstSeen(ps[..3]) == ["a"];
    assert ps[..4][..3] == ps[..3];
    assert FirstSeen(ps[..4]) == ["a", "b"];
    assert ps[..5][..4] == ps[..4];
    assert FirstSeen(ps[..5]) == ["a", "b"];
    assert ps[..6][..5] == ps[..5];
    assert ps[..6] == ps;
  }

  lemma MappedCounts()
    ensures MapPhase(["a", "a", "a", "b", "b", "c"])
      == [Pair("a", 1), Pair("a", 1), Pair("a", 1), Pair("b", 1), Pair("b", 1), Pair("c", 1)]
  {
    assert LowerWord("a") == "a" && LowerWord("b") == "b" && LowerWord("c") == "c";
  }

  lemma OccurrencesCounts()
    ensures var ps := [Pair("a", 1), Pair("a", 1), Pair("a", 1), Pair("b", 1), Pair("b", 1), Pair("c", 1)];
      Occurrences(ps, "a") == 3 && Occurrences(ps, "b") == 2 && Occurrences(ps, "c") == 1
  {
    var ps := [Pair("a", 1), Pair("a", 1), Pair("a", 1), Pair("b", 1), Pair("b", 1), Pair("c", 1)];
    assert Keys(ps) == ["a", "a", "a", "b", "b", "c"];
    assert multiset(Keys(ps)) == multiset{"a", "a", "a", "b", "b", "c"};
  }

  lemma ReducedCountsOfPairs()
    ensures ReducePhase(Shuffled([Pair("a", 1), Pair("a", 1), Pair("a", 1), Pair("b", 1), Pair("b", 1), Pair("c", 1)]))
      == [Pair("a", 3), Pair("b", 2), Pair("c", 1)]
  {
    var ps := [Pair("a", 1), Pair("a", 1), Pair("a", 1), Pair("b", 1), Pair("b", 1), Pair("c", 1)];
    FirstSeenCounts();
    OccurrencesCounts();
    ReducedCounts(ps);
  }

  /** "a a a b b c" counts to `{a: 3, b: 2, c: 1}`. */
  lemma FrequenciesCounts()
    ensures WordFrequencies("a a a b b c") == [Pair("a", 3), Pair("b", 2), Pair("c", 1)]
  {
    TokensCounts();
    MappedCounts();
    PipelineDictionary("a a a b b c");
    ReducedCountsOfPairs();
  }

  /** "a a a b b c" with `top_n = 2` charts "a" and "b". */
  lemma RankedCounts()
    ensures Ranked(WordFrequencies("a a a b b c"), 2) == [Pair("a", 3), Pair("b", 2)]
  {
    FrequenciesCounts();
    ScenarioCounts();
  }

  /** Full stops and exclamation marks between punctuation-free pieces
      are simply deleted. */
  lemma CleanedSentences(a: string, b: string)
    requires NoPunct(a) && NoPunct(b)
    ensures RemovePunctuation(a + "." + b + "!") == a + b
  {
    assert RemovePunctuation(".") == [];
    RemovePunctuationConcat(a, ".");
    assert RemovePunctuation(a + ".") == a;
    RemovePunctuationConcat(a + ".", b);
    assert RemovePunctuation(a + "." + b) == a + b;
    assert RemovePunctuation("!") == [];
    RemovePunctuationConcat(a + "." + b, "!");
  }

  lemma CleanedTie()
    ensures RemovePunctuation("C a b. C b!") == "C a b C b"
  {
    var a, b := "C a b", " C b";
    assert "C a b. C b!" == a + "." + b + "!";
    assert a + b == "C a b C b";
    assert NoPunct(a) && NoPunct(b);
    CleanedSentences(a, b);
  }

  lemma TokensTie()
    ensures Tokens("C a b. C b!") == ["C", "a", "b", "C", "b"]
  {
    var ws: seq<string> := ["C", "a", "b", "C", "b"];
    assert JoinWords(ws[4..]) == "b";
    assert JoinWords(ws[3..]) == "C b";
    assert JoinWords(ws[2..]) == "b C b";
    assert JoinWords(ws[1..]) == "a b C b";
    assert JoinWords(ws) == "C a b C b";
    assert forall i :: 0 <= i < |ws| ==> IsWord(ws[i]);
    SplitJoinWords(ws);
    CleanedTie();
  }

  lemma MappedTie()
    ensures MapPhase(["C", "a", "b", "C", "b"])
      == [Pair("c", 1), Pair("a", 1), Pair("b", 1), Pair("c", 1), Pair("b", 1)]
  {
    assert Lower('C') == 'c';
    assert LowerWord("C") == "c" && LowerWord("a") == "a" && LowerWord("b") == "b";
  }

  lemma FirstSeenTie()
    ensures FirstSeen([Pair("c", 1), Pair("a", 1), Pair("b", 1), Pair("c", 1), Pair("b", 1)])
      == ["c", "a", "b"]
  {
    var ps := [Pair("c", 1), Pair("a", 1), Pair("b", 1), Pair("c", 1), Pair("b", 1)];
    assert ps[..1][..0] == [];
    assert FirstSeen(ps[..1]) == ["c"];
    assert ps[..2][..1] == ps[..1];
    assert FirstSeen(ps[..2]) == ["c", "a"];
    assert ps[..3][..2] == ps[..2];
    assert FirstSeen(ps[..3]) == ["c", "a", "b"];
    assert ps[..4][..3] == ps[..3];
    assert FirstSeen(ps[..4]) == ["c", "a", "b"];
    assert ps[..5][..4] == ps[..4];
    assert ps[..5] == ps;
  }

  lemma OccurrencesTie()
    ensures var ps := [Pair("c", 1), Pair("a", 1), Pair("b", 1), Pair("c", 1), Pair("b", 1)];
      Occurrences(ps, "c") == 2 && Occurrences(ps, "a") == 1 && Occurrences(ps, "b") == 2
  {
    var ps := [Pair("c", 1), Pair("a", 1), Pair("b", 1), Pair("c", 1), Pair("b", 1)];
    assert Keys(ps) == ["c", "a", "b", "c", "b"];
    assert multiset(Keys(ps)) == multiset{"c", "a", "b", "c", "b"};
  }

  lemma ReducedTie()
    ensures ReducePhase(Shuffled([Pair("c", 1), Pair("a", 1), Pair("b", 1), Pair("c", 1), Pair("b", 1)]))
      == [Pair("c", 2), Pair("a", 1), Pair("b", 2)]
  {
    var ps := [Pair("c", 1), Pair("a", 1), Pair("b", 1), Pair("c", 1), Pair("b", 1)];
    FirstSeenTie();
    OccurrencesTie();
    ReducedCounts(ps);
  }

  /** "C a b. C b!" counts to `{c: 2, a: 1, b: 2}`: punctuation goes, "C"
      is lower-cased, and the keys keep first-seen order. */
  lemma FrequenciesTie()
    ensures WordFrequencies("C a b. C b!") == [Pair("c", 2), Pair("a", 1), Pair("b", 2)]
  {
    TokensTie();
    MappedTie();
    PipelineDictionary("C a b. C b!");
    ReducedTie();
  }

  /** The chart of "C a b. C b!" with `top_n = 2`: dictionary order on the
      tie in the source, word order in the lexicographic variant. */
  lemma RankedTie()
    ensures Ranked(WordFrequencies("C a b. C b!"), 2) == [Pair("c", 2), Pair("b", 2)]
    ensures RankedLexicographic(WordFrequencies("C a b. C b!"), 2) == [Pair("b", 2), Pair("c", 2)]
  {
    FrequenciesTie();
    ScenarioTie();
    ScenarioTieLexicographic();
  }
}
