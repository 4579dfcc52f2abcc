# Word-frequency MapReduce, modelled in Dafny

This project models the word count in `task_2.py`. The count runs in five
stages:

- **Normalise.** `remove_punctuation` deletes the 32 ASCII characters of
  `string.punctuation`. `str.split()` then cuts the text into words on runs
  of whitespace.
- **Map.** `map_function` turns each word into `(word.lower(), 1)`.
- **Shuffle.** `shuffle_function` collects the values of each key into a
  list held by a `defaultdict(list)`. Keys keep the order in which they are
  first seen.
- **Reduce.** `reduce_function` sums each key's list, and `dict(...)` turns
  the results into the frequency dictionary.
- **Rank.** In `visualize_top_words`, a stable descending sort by count is
  sliced to `top_n` entries and unzipped into words and frequencies.

Files:

- `Normalize.dfy`, module `Normalize`: punctuation removal, ASCII
  lower-casing and whitespace splitting.
- `MapReduce.dfy`, module `MapReduce`: the map, shuffle and reduce stages,
  `dict(...)` and the pipeline `map_reduce`.
- `Ranking.dfy`, module `Ranking`: the sort-and-slice expression on line 58,
  the unpacking on line 59, and a separate ranking that breaks ties
  lexicographically.
- `Scenarios.dfy`, module `Scenarios`: worked examples carried from the
  text through the whole pipeline to the ranking.

How the Python is represented:

- A Python dict keeps insertion order, so a dictionary is a `seq<Pair>`
  whose keys are distinct.
- `shuffle_function` updates a dictionary in a loop. It is the method
  `MapReduce.Shuffle`, a `while` loop over a `map` of lists plus the
  insertion-order `seq` of keys. It is proved equal to the function
  `MapReduce.Shuffled`.
- `map_reduce` calls the shuffle, so it is the method `MapReduce.MapReduce`.
  It is proved equal to the function `MapReduce.WordFrequencies`.
- Everything else is a pure expression in the source and a function here.
- Each `ThreadPoolExecutor.map` call applies a pure function and returns the
  results in input order. Each one is modelled as a sequential map over a
  `seq` (`MapPhase`, `ReducePhase`).

Where the source and the behaviour one would ask of a word counter
disagree, the model follows the source:

- **Ties in the ranking.** Equal counts keep the dictionary's order, which
  is first-seen order: `sorted(..., reverse=True)` is stable. A
  deterministic ranking would break ties by ascending lexicographic order;
  that ordering is the separate function `Ranking.RankedLexicographic`.
  `Scenarios.RankedTie` shows the two orders disagreeing on the text
  "C a b. C b!", whose dictionary is `{c: 2, a: 1, b: 2}`.
- **Empty ranking.** One would expect an empty map or `top_n == 0` to give
  an empty ranking. In the source the slice is empty, but unpacking
  `zip(*[])` into two names raises `ValueError`. `Ranking.Unzip` models
  that error.
- **Negative `top_n`.** Python's `[:top_n]` with a negative `top_n` drops
  entries from the end. `Ranking.Slice` models that.
- **Failures.** The source does not catch an exception raised in a worker.
  `list(executor.map(...))` re-raises it in the caller when that result is
  read, so it would reach the caller of `map_reduce`. Neither
  `map_function` on a string nor `reduce_function` on a list of ints can
  raise, so the model has no error path for these stages.

## Model

| member | source | states |
|---|---|---|
| `Normalize.RemovePunctuation` | task_2.py:17-18 | the result contains no punctuation character (`IsPunct`: the 32 characters of `string.punctuation`), is never longer than the input, and equals the input when it has none (hence idempotence) |
| `Normalize.RemovePunctuationConcat` | task_2.py:17-18 | deletion works character by character: removing from `a + b` is removing from `a`, then from `b`; with the one-character case this fixes the kept characters and their order |
| `Normalize.RemovePunctuationCounts` | task_2.py:17-18 | a punctuation character occurs 0 times in the result; every other character occurs as often as in the input |
| `Normalize.RemovePunctuationIdempotent` | task_2.py:17-18 | removing punctuation twice is the same as removing it once |
| `Normalize.Lower` | task_2.py:22 | the result is not upper-case; an upper-case letter maps to the lower-case letter at the same alphabet position; every other character is unchanged; punctuation and whitespace are unchanged |
| `Normalize.LowerWord` | task_2.py:22 | the same length, lower-casing each character in place |
| `Normalize.LowerWordKeepsToken` | task_2.py:22 | a lower-cased word has no upper-case letter, and stays a word and punctuation-free exactly when the original was |
| `Normalize.LowerWordIdempotent` | task_2.py:22 | lower-casing twice is lower-casing once |
| `Normalize.Split` | task_2.py:40 | every piece `str.split()` yields is non-empty and contains no whitespace (`IsSpace`: the ASCII characters `str.isspace` accepts) |
| `Normalize.SplitKeepsCharacters` | task_2.py:40 | the pieces, concatenated, are exactly the non-whitespace characters of the input, in order |
| `Normalize.SplitEmpty` | task_2.py:40 | the split is empty exactly when the text is empty or all whitespace |
| `Normalize.SplitAtSpace` | task_2.py:40 | a whitespace character separates: splitting `a + [c] + b` gives the words of `a` followed by those of `b` |
| `Normalize.SplitWord` | task_2.py:40 | a non-empty whitespace-free string splits into itself alone |
| `Normalize.SplitJoinWords` | task_2.py:40 | round trip: words joined by single spaces split back into the same words |
| `Normalize.Tokens` | task_2.py:39-40 | every token of `split()` after punctuation removal is a non-empty, whitespace-free, punctuation-free word |
| `Normalize.TokensHaveNoPunct` | task_2.py:39-40 | splitting punctuation-free text gives punctuation-free words |
| `MapReduce.SumOfOnes` | task_2.py:34 | `sum` of a list of 1s is its length |
| `MapReduce.MapFunction` | task_2.py:21-22 | the count is always 1; the key has the word's length and holds the lower-cased characters |
| `MapReduce.MapPhase` | task_2.py:43-44 | one pair per word, and entry i is `map_function(words[i])`, so length and order are kept |
| `MapReduce.FirstSeen` | task_2.py:25-29 | the dictionary's keys are distinct and are exactly the keys of the input pairs |
| `MapReduce.ValuesOf` | task_2.py:25-29 | a key's list has as many entries as there are pairs with that key |
| `MapReduce.Shuffle` | task_2.py:25-29 | the loop that appends into the `defaultdict` yields exactly the function `Shuffled`: the keys in first-seen order, each with the values of its pairs, in order |
| `MapReduce.ShuffledKeys` | task_2.py:25-29 | every key appears once, and the keys are exactly those of the input pairs |
| `MapReduce.ShuffledGroups` | task_2.py:25-29 | each key's list holds the values of exactly the pairs with that key; its length is the key's number of occurrences, at least 1 |
| `MapReduce.ShuffledConserves` | task_2.py:25-29 | the list lengths add up to the number of pairs: no pair is lost or duplicated |
| `MapReduce.ShuffledOrder` | task_2.py:25-29 | keys come out in the order of their first occurrence among the pairs |
| `MapReduce.FirstSeenOrder` | task_2.py:25-29 | the same order property, stated for the distinct-key sequence itself |
| `MapReduce.ReduceFunction` | task_2.py:32-34 | the key is unchanged; an empty list gives 0; a list of 1s gives its length |
| `MapReduce.ReducePhase` | task_2.py:50-51 | one pair per group, and entry i is `reduce_function(groups[i])` |
| `MapReduce.Assign` | task_2.py:53 | `d[k] = v` keeps the keys distinct; a new `k` is appended at the end; an existing `k` keeps its position and takes the new value, and every other entry is unchanged |
| `MapReduce.DictFromItems` | task_2.py:53 | `dict(items)` has distinct keys, exactly the keys of the items in order of first appearance (`FirstSeen`), and each key holds the value of its last item |
| `MapReduce.DictFromDistinctItems` | task_2.py:53 | items whose keys are already distinct become a dict with the same items in the same order |
| `MapReduce.MapReduce` | task_2.py:37-53 | the dictionary equals the function `WordFrequencies(text)`, which composes the five stages; its counts add up to the number of tokens; its keys are distinct and are exactly the lower-cased tokens; each count is that token's number of occurrences, at least 1 |
| `MapReduce.ReducedCounts` | task_2.py:25-34 | reducing the shuffle of unit pairs gives one entry per distinct key, in first-seen order, whose count is that key's number of occurrences, at least 1 |
| `MapReduce.ReducedSum` | task_2.py:25-34 | the counts obtained by reducing the shuffle of unit pairs add up to the number of pairs |
| `MapReduce.PipelineDictionary` | task_2.py:47-53 | the reduced items have distinct keys, so `dict` keeps them as they are |
| `MapReduce.WordFrequenciesConserves` | task_2.py:37-53 | conservation: the sum of the counts equals the number of tokens from `split()` after punctuation removal |
| `MapReduce.WordFrequenciesKeys` | task_2.py:37-53 | the keys are unique, and a word is a key exactly when it is a lower-cased token |
| `MapReduce.WordFrequenciesCounts` | task_2.py:37-53 | each count is the number of occurrences of its word among the lower-cased tokens, at least 1 |
| `MapReduce.LoweredTokensAreTokens` | task_2.py:39-44 | every lower-cased token is non-empty, lower-case, and free of whitespace and punctuation |
| `MapReduce.WordFrequenciesKeysAreTokens` | task_2.py:37-53 | every key is non-empty, lower-case, and free of whitespace and punctuation |
| `Ranking.SortByCount` | task_2.py:58 | the sorted list is a permutation of the items, in non-increasing order of count |
| `Ranking.SortByCountStable` | task_2.py:58 | stability: for every count, the entries with that count keep their relative order |
| `Ranking.Slice` | task_2.py:58 | `[:n]` is a prefix of length `min(n, len)` for `n >= 0`, and of length `max(len + n, 0)` for negative `n` |
| `Ranking.RankedLength` | task_2.py:58 | for `top_n >= 0` the ranking `Ranked(freq, top_n)`, the expression on line 58, has `min(top_n, number of distinct words)` entries |
| `Ranking.RankedDrawn` | task_2.py:58 | the ranking draws its entries from the dictionary without repetition (multiset inclusion), in non-increasing order of count |
| `Ranking.RankedLeavesOutSmaller` | task_2.py:58 | the kept and the dropped entries together are exactly the dictionary's entries, and every dropped entry has a count no larger than any kept one |
| `Ranking.RankedKeepsTieOrder` | task_2.py:58 | ties keep the dictionary's order: for every count, the ranked entries with that count are the first dictionary entries with that count |
| `Ranking.RankedDistinct` | task_2.py:58 | the ranking of a dictionary repeats no word |
| `Ranking.Unzip` | task_2.py:59 | `words, frequencies = zip(*ranked)` fails exactly on an empty ranking; otherwise entry i is `(words[i], frequencies[i])` |
| `Ranking.TopWordsFails` | task_2.py:58-59 | for `TopWords`, lines 58-59 together, the unpacking fails exactly when the dictionary is empty, `top_n == 0`, or a negative `top_n` drops every entry |
| `Ranking.SortByCountThenWord` | task_2.py:58 | lexicographic variant: a permutation ordered by count descending, and by word ascending among equal counts |
| `Ranking.RankedLexicographicLength` | task_2.py:58 | the lexicographic variant has `min(top_n, number of distinct words)` entries for `top_n >= 0`, like the source's ranking |
| `Ranking.RankedLexicographicDrawn` | task_2.py:58 | the lexicographic variant draws from the dictionary without repetition, in non-increasing order of count |
| `Ranking.RankedLexicographicOrder` | task_2.py:58 | in the lexicographic variant, entries with equal counts come in ascending order of the word |
| `Ranking.ScenarioCounts` | task_2.py:58 | the dictionary `{a: 3, b: 2, c: 1}` ranks as `[(a, 3), (b, 2)]` with `top_n = 2` |
| `Ranking.ScenarioTie` | task_2.py:58 | on the dictionary `{c: 2, a: 1, b: 2}` the tie between "c" and "b" keeps dictionary order: `[(c, 2), (b, 2)]` |
| `Ranking.ScenarioTieLexicographic` | task_2.py:58 | the lexicographic variant gives `[(b, 2), (c, 2)]` on the same dictionary |
| `Scenarios.TokensCounts` | task_2.py:39-40 | "a a a b b c" splits into the six one-letter words |
| `Scenarios.FrequenciesCounts` | task_2.py:37-53 | `map_reduce("a a a b b c")` is `{a: 3, b: 2, c: 1}` |
| `Scenarios.RankedCounts` | task_2.py:58 | the top 2 of "a a a b b c" are `[(a, 3), (b, 2)]` |
| `Scenarios.CleanedSentences` | task_2.py:17-18 | a full stop and an exclamation mark between punctuation-free pieces are deleted and nothing else changes |
| `Scenarios.TokensTie` | task_2.py:39-40 | "C a b. C b!" loses its punctuation and splits into `C, a, b, C, b` |
| `Scenarios.FrequenciesTie` | task_2.py:37-53 | `map_reduce("C a b. C b!")` is `{c: 2, a: 1, b: 2}`: "C" is lower-cased and keys keep first-seen order |
| `Scenarios.RankedTie` | task_2.py:58 | the top 2 of "C a b. C b!" are `[(c, 2), (b, 2)]` in the source (dictionary order on the tie) and `[(b, 2), (c, 2)]` in the lexicographic variant |

## Left out

- `get_text` (task_2.py:8-14) is left out. It fetches the text over HTTP,
  which is network I/O. The model starts from the text itself.
- The chart drawn in `visualize_top_words` (task_2.py:62-69) is left out.
  It is matplotlib output. The model stops at the words and frequencies
  handed to it (`Ranking.TopWords`).
- `Ranking.TopWords`: the default `top_n=10` of `visualize_top_words`
  (task_2.py:56) is not a separate member; the call without it on line 79
  is `TopWords(freq, 10)`.
- The `__main__` block (task_2.py:71-81) is left out. It is I/O and
  printing.
- `ThreadPoolExecutor` scheduling is left out. `ThreadPoolExecutor()`
  (task_2.py:43, 50) is a pool of `min(32, os.cpu_count() + 4)` workers,
  but its size and scheduling make no observable difference here. The
  mapped functions are pure and `executor.map` returns results in input
  order, so the two phases are sequential maps. Cancellation has no
  counterpart in the source.
- `Lower`: models `str.lower` over ASCII only. Non-ASCII letters are left
  unchanged, because full Unicode case mapping is library data.
- `Split`: models `str.split()` over ASCII whitespace only (codes 9-13,
  28-31 and 32). Unicode whitespace such as U+00A0 or U+2028 is not a
  separator here.
- Python's `+` on `int` is unbounded, like Dafny's `int`, so the model has
  no overflow to capture.
- `task_1.py` is not part of this model. It is asynchronous file copying
  with argument parsing and logging.
- `MapReduce.Shuffle` stores each key's list as a `seq` that is replaced on
  each append. The `defaultdict` instead mutates its lists in place, but
  nothing else holds a reference to them, so no aliasing is lost.
