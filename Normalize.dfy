/** Normalisation of the raw text before the map phase: deletion of ASCII
    punctuation (`remove_punctuation`), ASCII lower-casing (`str.lower`)
    and splitting on runs of whitespace (`str.split()` without arguments). */
module Normalize {

  /** The 32 characters of Python's `string.punctuation`:
      codes 33-47, 58-64, 91-96 and 123-126 (every printable ASCII
      character that is neither a letter, a digit nor a space). */
  predicate IsPunct(c: char) {
    (33 <= c as int <= 47) || (58 <= c as int <= 64) ||
    (91 <= c as int <= 96) || (123 <= c as int <= 126)
  }

  /** The ASCII characters Python's `str.isspace` accepts, which are the
      separators of `str.split()`: tab, line feed, vertical tab, form feed,
      carriage return, the four information separators 28-31, and space. */
  predicate IsSpace(c: char) {
    (9 <= c as int <= 13) || (28 <= c as int <= 31) || c == ' '
  }

  predicate IsUpper(c: char) {
    'A' <= c <= 'Z'
  }

  predicate NoPunct(s: string) {
    forall i :: 0 <= i < |s| ==> !IsPunct(s[i])
  }

  predicate NoSpace(s: string) {
    forall i :: 0 <= i < |s| ==> !IsSpace(s[i])
  }

  predicate NoUpper(s: string) {
    forall i :: 0 <= i < |s| ==> !IsUpper(s[i])
  }

  /** A word as `str.split()` yields it: non-empty and free of whitespace. */
  predicate IsWord(w: string) {
    |w| > 0 && NoSpace(w)
  }

  // ---------------------------------------------------------------------
  // remove_punctuation: str.translate deleting string.punctuation (lines 17-18)

  /** Deletes every punctuation character and keeps every other one, in order. */
  function RemovePunctuation(s: string): (r: string)
    ensures NoPunct(r)
    ensures |r| <= |s|
    ensures NoPunct(s) ==> r == s
  {
    if s == [] then []
    else (if IsPunct(s[0]) then [] else [s[0]]) + RemovePunctuation(s[1..])
  }

  /** Deletion works character by character: it distributes over concatenation. */
  lemma {:induction false} RemovePunctuationConcat(a: string, b: string)
    ensures RemovePunctuation(a + b) == RemovePunctuation(a) + RemovePunctuation(b)
  {
    if a == [] {
      assert a + b == b;
    } else {
      assert (a + b)[1..] == a[1..] + b;
      RemovePunctuationConcat(a[1..], b);
    }
  }

  /** Exactly the punctuation characters are removed: every other character
      keeps its number of occurrences. */
  lemma {:induction false} RemovePunctuationCounts(s: string, c: char)
    ensures multiset(RemovePunctuation(s))[c] == if IsPunct(c) then 0 else multiset(s)[c]
  {
    if s != [] {
      var head := if IsPunct(s[0]) then [] else [s[0]];
      RemovePunctuationCounts(s[1..], c);
      assert s == [s[0]] + s[1..];
      assert multiset(s)[c] == multiset([s[0]])[c] + multiset(s[1..])[c];
      assert multiset(RemovePunctuation(s))[c]
        == multiset(head)[c] + multiset(RemovePunctuation(s[1..]))[c];
    }
  }

  lemma RemovePunctuationIdempotent(s: string)
    ensures RemovePunctuation(RemovePunctuation(s)) == RemovePunctuation(s)
  {
  }

  // ---------------------------------------------------------------------
  // str.lower over ASCII

  /** Maps 'A'..'Z' to 'a'..'z' and leaves every other character alone. */
  function Lower(c: char): (r: char)
    ensures !IsUpper(r)
    ensures IsUpper(c) || r == c
    ensures IsUpper(c) ==> 'a' <= r <= 'z' && r as int - 'a' as int == c as int - 'A' as int
    ensures IsPunct(r) <==> IsPunct(c)
    ensures IsSpace(r) <==> IsSpace(c)
  {
    if IsUpper(c) then (c as int - 'A' as int + 'a' as int) as char else c
  }

  /** Lower-cases a word character by character. */
  function LowerWord(w: string): (r: string)
    ensures |r| == |w|
    ensures forall i :: 0 <= i < |w| ==> r[i] == Lower(w[i])
  {
    if w == [] then [] else [Lower(w[0])] + LowerWord(w[1..])
  }

  /** Lower-casing keeps a word a word, keeps it punctuation-free, and
      leaves nothing upper-case. */
  lemma LowerWordKeepsToken(w: string)
    ensures NoUpper(LowerWord(w))
    ensures IsWord(w) <==> IsWord(LowerWord(w))
    ensures NoPunct(w) <==> NoPunct(LowerWord(w))
  {
    var r := LowerWord(w);
    assert forall i :: 0 <= i < |w| ==> (IsSpace(r[i]) <==> IsSpace(w[i]));
    assert forall i :: 0 <= i < |w| ==> (IsPunct(r[i]) <==> IsPunct(w[i]));
  }

  lemma LowerWordIdempotent(w: string)
    ensures LowerWord(LowerWord(w)) == LowerWord(w)
  {
  }

  // ---------------------------------------------------------------------
  // str.split() with no separator

  /** Length of the longest whitespace-free prefix of `s`. */
  function WordLength(s: string): (n: nat)
    ensures n <= |s|
    ensures forall i :: 0 <= i < n ==> !IsSpace(s[i])
    ensures n < |s| ==> IsSpace(s[n])
  {
    if s == [] || IsSpace(s[0]) then 0 else 1 + WordLength(s[1..])
  }

  /** Splits on runs of whitespace, dropping the empty pieces that leading,
      trailing or repeated whitespace would otherwise produce. */
  function Split(s: string): (ws: seq<string>)
    ensures forall i :: 0 <= i < |ws| ==> IsWord(ws[i])
    decreases |s|
  {
    if s == [] then []
    else if IsSpace(s[0]) then Split(s[1..])
    else
      var n := WordLength(s);
      [s[..n]] + Split(s[n..])
  }

  /** The characters of all words together, in order. */
  function Flatten(ws: seq<string>): string {
    if ws == [] then [] else ws[0] + Flatten(ws[1..])
  }

  /** The characters of `s` that are not whitespace, in order. */
  function NonSpace(s: string): (r: string)
    ensures NoSpace(r)
  {
    if s == [] then [] else (if IsSpace(s[0]) then [] else [s[0]]) + NonSpace(s[1..])
  }

  lemma {:induction false} NonSpaceConcat(a: string, b: string)
    ensures NonSpace(a + b) == NonSpace(a) + NonSpace(b)
  {
    if a == [] {
      assert a + b == b;
    } else {
      assert (a + b)[1..] == a[1..] + b;
      NonSpaceConcat(a[1..], b);
    }
  }

  lemma {:induction false} NonSpaceOfWord(w: string)
    requires NoSpace(w)
    ensures NonSpace(w) == w
  {
    if w != [] {
      NonSpaceOfWord(w[1..]);
    }
  }

  /** Splitting neither loses nor invents a non-whitespace character. */
  lemma {:induction false} SplitKeepsCharacters(s: string)
    ensures Flatten(Split(s)) == NonSpace(s)
    decreases |s|
  {
    if s == [] {
    } else if IsSpace(s[0]) {
      SplitKeepsCharacters(s[1..]);
    } else {
      var n := WordLength(s);
      SplitKeepsCharacters(s[n..]);
      assert s == s[..n] + s[n..];
      NonSpaceConcat(s[..n], s[n..]);
      NonSpaceOfWord(s[..n]);
      assert Flatten(Split(s)) == s[..n] + Flatten(Split(s[n..]));
    }
  }

  /** Whitespace only (or nothing) splits into no words at all. */
  lemma {:induction false} SplitEmpty(s: string)
    ensures Split(s) == [] <==> NonSpace(s) == []
  {
    SplitKeepsCharacters(s);
    if Split(s) != [] {
      assert |Split(s)[0]| > 0;
      FlattenNonEmpty(Split(s));
    }
  }

  lemma FlattenNonEmpty(ws: seq<string>)
    requires |ws| > 0 && |ws[0]| > 0
    ensures Flatten(ws) != []
  {
  }

  lemma {:induction false} WordLengthExtend(a: string, t: string)
    requires |t| > 0 && IsSpace(t[0])
    ensures WordLength(a + t) == WordLength(a)
  {
    if a == [] {
      assert a + t == t;
    } else if !IsSpace(a[0]) {
      assert (a + t)[1..] == a[1..] + t;
      WordLengthExtend(a[1..], t);
    }
  }

  /** A whitespace character separates: the words of `a`, then those of `b`. */
  lemma {:induction false} SplitAtSpace(a: string, c: char, b: string)
    requires IsSpace(c)
    ensures Split(a + [c] + b) == Split(a) + Split(b)
    decreases |a|
  {
    var s := a + [c] + b;
    if a == [] {
      assert s[1..] == b;
    } else if IsSpace(a[0]) {
      assert s[1..] == a[1..] + [c] + b;
      SplitAtSpace(a[1..], c, b);
    } else {
      var n := WordLength(a);
      assert a + [c] + b == a + ([c] + b);
      WordLengthExtend(a, [c] + b);
      assert s[..n] == a[..n];
      assert s[n..] == a[n..] + [c] + b;
      SplitAtSpace(a[n..], c, b);
    }
  }

  /** A whitespace-free non-empty string is one word. */
  lemma {:induction false} SplitWord(w: string)
    requires IsWord(w)
    ensures Split(w) == [w]
  {
    assert WordLength(w) == |w|;
    assert w[..|w|] == w;
    assert w[|w|..] == [];
  }

  /** The words joined by single spaces, as `" ".join(ws)` builds them. */
  function JoinWords(ws: seq<string>): string {
    if ws == [] then []
    else if |ws| == 1 then ws[0]
    else ws[0] + [' '] + JoinWords(ws[1..])
  }

  /** Joining words with spaces and splitting again gives back the words. */
  lemma {:induction false} SplitJoinWords(ws: seq<string>)
    requires forall i :: 0 <= i < |ws| ==> IsWord(ws[i])
    ensures Split(JoinWords(ws)) == ws
  {
    if |ws| == 1 {
      SplitWord(ws[0]);
    } else if |ws| > 1 {
      SplitAtSpace(ws[0], ' ', JoinWords(ws[1..]));
      SplitWord(ws[0]);
      SplitJoinWords(ws[1..]);
    }
  }

  // ---------------------------------------------------------------------
  // The tokens map_reduce feeds to the map phase (lines 39-40)

  function Tokens(text: string): (ws: seq<string>)
    ensures forall i :: 0 <= i < |ws| ==> IsWord(ws[i]) && NoPunct(ws[i])
  {
    var cleaned := RemovePunctuation(text);
    var ws := Split(cleaned);
    TokensHaveNoPunct(cleaned);
    ws
  }

  lemma {:induction false} TokensHaveNoPunct(s: string)
    requires NoPunct(s)
    ensures forall i :: 0 <= i < |Split(s)| ==> NoPunct(Split(s)[i])
    decreases |s|
  {
    if s == [] {
    } else if IsSpace(s[0]) {
      TokensHaveNoPunct(s[1..]);
    } else {
      var n := WordLength(s);
      TokensHaveNoPunct(s[n..]);
      assert forall i :: 0 <= i < n ==> s[..n][i] == s[i];
    }
  }
}
