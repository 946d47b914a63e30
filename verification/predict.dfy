/**
 * The next-guess selection at the end of `predict`: among the candidates that contain the
 * split letter and repeat no letter, the one whose anagram bucket is largest. The split letter
 * itself (`letters[feature_idx]`, chosen by a decision tree) is an input here.
 */
module Predict {
  import opened Common
  import opened Anagram
  import opened Ranking

  /**
   * The source's test: the key has as many characters as distinct characters. It holds
   * exactly when no letter of the word repeats.
   */
  predicate HasDistinctLetters(word: string): (r: bool)
    ensures r <==> Distinct(word)
  {
    var letters := SortLetters(word);
    DistinctCount(word);
    assert (set c | c in letters) == (set c | c in word) by {
      assert forall c :: c in letters <==> c in multiset(letters);
      assert forall c :: c in word <==> c in multiset(word);
    }
    |letters| == |set c | c in letters|
  }

  /** A string has as many distinct characters as characters exactly when none repeats. */
  lemma {:induction false} DistinctCount(s: string)
    ensures |set c | c in s| <= |s|
    ensures |set c | c in s| == |s| <==> Distinct(s)
  {
    if s != [] {
      var tail := s[1..];
      DistinctCount(tail);
      assert (set c | c in s) == (set c | c in tail) + {s[0]};
      DistinctCons(s);
    }
  }

  /** Both `filter`s: contains the split letter, and no letter repeats. */
  predicate Eligible(word: string, letter: char): (r: bool)
    ensures r <==> letter in word && Distinct(word)
  {
    letter in word && HasDistinctLetters(word)
  }

  /** The `max_by_key` score: the size of the word's anagram bucket, 0 when it has none. */
  function Score(index: map<string, set<string>>, word: string): (r: nat)
    ensures r == 0 <==> SortLetters(word) !in index || index[SortLetters(word)] == {}
  {
    Size(index, SortLetters(word))
  }

  /** Anagrams share a bucket, so they score alike. */
  lemma AnagramsScoreAlike(index: map<string, set<string>>, v: string, w: string)
    requires multiset(v) == multiset(w)
    ensures Score(index, v) == Score(index, w)
  {
    SameKeyIffAnagram(v, w);
  }

  /**
   * `filter(..).filter(..).max_by_key(..)`: none when no word is eligible; otherwise an
   * eligible word of greatest score. Like `max_by_key`, which keeps the later of two equal
   * elements, a word is preferred only over strictly lower-scoring later ones.
   */
  function NextBest(index: map<string, set<string>>, words: seq<string>, letter: char): (best: Option<string>)
    ensures best.None? <==> forall w :: w in words ==> !Eligible(w, letter)
    ensures best.Some? ==> best.value in words && Eligible(best.value, letter)
    ensures best.Some? ==> forall w :: w in words && Eligible(w, letter) ==> Score(index, w) <= Score(index, best.value)
  {
    if words == [] then
      None
    else
      var rest := NextBest(index, words[1..], letter);
      assert forall w :: w in words <==> w == words[0] || w in words[1..];
      if !Eligible(words[0], letter) then
        rest
      else if rest.Some? && Score(index, words[0]) <= Score(index, rest.value) then
        rest
      else
        Some(words[0])
  }

  /**
   * Ties go to the later word, as with `max_by_key`: the chosen word occurs at or after every
   * eligible word of the same score.
   */
  lemma {:induction false} NextBestIsLast(index: map<string, set<string>>, words: seq<string>, letter: char, j: nat)
    requires NextBest(index, words, letter).Some?
    requires j < |words| && Eligible(words[j], letter)
    requires Score(index, words[j]) == Score(index, NextBest(index, words, letter).value)
    ensures NextBest(index, words, letter).value in words[j..]
  {
    if j == 0 {
      assert words[0..] == words;
    } else {
      NextBestSkipsFirst(index, words, letter, j);
      NextBestIsLast(index, words[1..], letter, j - 1);
      DropTail(words, j);
    }
  }

  lemma DropTail(words: seq<string>, j: nat)
    requires 0 < j <= |words|
    ensures words[1..][j - 1..] == words[j..]
  {
  }

  /**
   * When a later eligible word ties with the choice, the first word did not win outright, so
   * the choice is that of the rest.
   */
  lemma NextBestSkipsFirst(index: map<string, set<string>>, words: seq<string>, letter: char, j: nat)
    requires NextBest(index, words, letter).Some?
    requires 0 < j < |words| && Eligible(words[j], letter)
    requires Score(index, words[j]) == Score(index, NextBest(index, words, letter).value)
    ensures NextBest(index, words, letter) == NextBest(index, words[1..], letter)
    ensures NextBest(index, words[1..], letter).Some? && Eligible(words[1..][j - 1], letter)
    ensures Score(index, words[1..][j - 1]) == Score(index, NextBest(index, words[1..], letter).value)
  {
    var rest := NextBest(index, words[1..], letter);
    NextBestStep(index, words, letter);
    assert words[j] == words[1..][j - 1];
    // words[j] lies in the rest, so the rest's choice scores at least as high as the chosen
    // word, and the first word cannot have won outright.
    assert words[j] in words[1..];
    assert rest.Some? && Score(index, words[j]) <= Score(index, rest.value);
  }

  /** One step of the selection: the first word wins only by beating the rest's choice outright. */
  lemma NextBestStep(index: map<string, set<string>>, words: seq<string>, letter: char)
    requires words != []
    ensures var rest := NextBest(index, words[1..], letter);
      NextBest(index, words, letter) ==
        if Eligible(words[0], letter) && (rest.None? || Score(index, words[0]) > Score(index, rest.value))
        then Some(words[0]) else rest
  {
  }

  /** The suggested guess for `letters[featureIdx]`, the letter chosen at the tree's root. */
  function Prediction(index: map<string, set<string>>, candidates: seq<string>,
                      letters: seq<char>, featureIdx: nat): (best: Option<string>)
    requires featureIdx < |letters|
    ensures best.None? <==> forall w :: w in candidates ==> !(letters[featureIdx] in w && Distinct(w))
    ensures best.Some? ==> best.value in candidates && letters[featureIdx] in best.value && Distinct(best.value)
    ensures best.Some? ==> forall w :: w in candidates && letters[featureIdx] in w && Distinct(w) ==>
                                         Score(index, w) <= Score(index, best.value)
  {
    NextBest(index, candidates, letters[featureIdx])
  }
}
