/**
 * The anagram key of a word (`sort_letters`): its characters in ascending order.
 * Two words share a key exactly when they are anagrams of each other.
 */
module Anagram {

  predicate Sorted(s: string) {
    forall i, j :: 0 <= i < j < |s| ==> s[i] <= s[j]
  }

  /** Inserts `c` into an already sorted string, before the first character not below it. */
  function Insert(c: char, s: string): (r: string)
    requires Sorted(s)
    ensures Sorted(r)
    ensures multiset(r) == multiset(s) + multiset{c}
    ensures |r| == |s| + 1
    ensures r[0] == if s == [] || c <= s[0] then c else s[0]
  {
    if s == [] || c <= s[0] then
      [c] + s
    else
      assert s == [s[0]] + s[1..];
      [s[0]] + Insert(c, s[1..])
  }

  /** `sort_letters`: the characters of `word` sorted ascending (the library sort, here by insertion). */
  function SortLetters(word: string): (key: string)
    ensures Sorted(key)
    ensures multiset(key) == multiset(word)
    ensures |key| == |word|
  {
    if word == [] then
      []
    else
      assert word == [word[0]] + word[1..];
      Insert(word[0], SortLetters(word[1..]))
  }

  /** A sorted arrangement of a multiset of characters is unique. */
  lemma {:induction false} SortedUnique(a: string, b: string)
    requires Sorted(a) && Sorted(b)
    requires multiset(a) == multiset(b)
    ensures a == b
  {
    if a == [] {
      assert |multiset(b)| == 0;
    } else {
      assert |b| == |multiset(b)| == |multiset(a)| > 0;
      HeadIsLeast(a, b[0]);
      HeadIsLeast(b, a[0]);
      assert a[0] == b[0];
      assert a == [a[0]] + a[1..];
      assert b == [b[0]] + b[1..];
      assert multiset(a[1..]) == multiset(a) - multiset{a[0]};
      assert multiset(b[1..]) == multiset(b) - multiset{b[0]};
      SortedTail(a);
      SortedTail(b);
      SortedUnique(a[1..], b[1..]);
    }
  }

  /** The first character of a sorted string is its least. */
  lemma HeadIsLeast(s: string, c: char)
    requires Sorted(s) && c in multiset(s)
    ensures s[0] <= c
  {
    var i :| 0 <= i < |s| && s[i] == c;
  }

  lemma SortedTail(s: string)
    requires Sorted(s) && s != []
    ensures Sorted(s[1..])
  {
    forall i, j | 0 <= i < j < |s| - 1 ensures s[1..][i] <= s[1..][j] {
      assert s[1..][i] == s[i + 1] && s[1..][j] == s[j + 1];
    }
  }

  /** Sorting a key again changes nothing. */
  lemma SortLettersIdempotent(word: string)
    ensures SortLetters(SortLetters(word)) == SortLetters(word)
  {
    SortedUnique(SortLetters(SortLetters(word)), SortLetters(word));
  }

  /** Two words get the same key if and only if they are anagrams (same multiset of characters). */
  lemma SameKeyIffAnagram(v: string, w: string)
    ensures SortLetters(v) == SortLetters(w) <==> multiset(v) == multiset(w)
  {
    if multiset(v) == multiset(w) {
      SortedUnique(SortLetters(v), SortLetters(w));
    }
  }

  /** The key of a sorted word is the word itself. */
  lemma SortedIsOwnKey(word: string)
    requires Sorted(word)
    ensures SortLetters(word) == word
  {
    SortedUnique(SortLetters(word), word);
  }
}
