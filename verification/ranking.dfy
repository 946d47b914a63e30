/**
 * Grouping and ranking the candidates (the body of `main`): accepted dictionary words are
 * bucketed by anagram key, the keys are ordered by bucket size, the ten largest buckets are
 * reported, and the largest one is the winner.
 */
module Ranking {
  import opened Common
  import opened Feedback
  import opened Matcher
  import opened Anagram

  /** The accepted words of the dictionary whose anagram key is `key`. */
  function Bucket(words: seq<string>, g: GuessState, key: string): set<string> {
    set w | w in words && Matches(g, w) && SortLetters(w) == key
  }

  /**
   * `index` is the anagram index of the accepted words: every accepted word's key is present
   * and each key maps to exactly its (non-empty) bucket.
   */
  predicate IsIndexOf(index: map<string, set<string>>, words: seq<string>, g: GuessState) {
    && (forall w :: w in words && Matches(g, w) ==> SortLetters(w) in index)
    && (forall k :: k in index ==> index[k] == Bucket(words, g, k) && index[k] != {})
  }

  /** `entry(k).or_insert(HashSet::new())`: the bucket under `k`, empty when there is none yet. */
  function Entry(index: map<string, set<string>>, k: string): (r: set<string>)
    ensures k in index ==> index[k := r] == index
    ensures k !in index ==> r == {}
  {
    if k in index then index[k] else {}
  }

  /** The `for_each` that fills the map, `entry(key).or_insert(..).insert(word)` per accepted word. */
  method BuildIndex(words: seq<string>, g: GuessState) returns (index: map<string, set<string>>)
    ensures IsIndexOf(index, words, g)
  {
    index := map[];
    for i := 0 to |words|
      invariant IsIndexOf(index, words[..i], g)
    {
      var word := words[i];
      var chars := SortLetters(word);
      ghost var before := index;
      if Matches(g, word) {
        index := index[chars := Entry(index, chars) + {word}];
      }
      IndexStep(before, index, words, i, g);
    }
    assert words[..|words|] == words;
  }

  /** Extending the dictionary prefix by one word adds at most that word, to its own bucket. */
  lemma BucketStep(words: seq<string>, i: nat, g: GuessState, k: string)
    requires i < |words|
    ensures Bucket(words[..i + 1], g, k) ==
      Bucket(words[..i], g, k) + (if Matches(g, words[i]) && SortLetters(words[i]) == k then {words[i]} else {})
  {
    assert words[..i + 1] == words[..i] + [words[i]];
    assert forall w :: w in words[..i + 1] <==> w in words[..i] || w == words[i];
  }

  /** One iteration of `BuildIndex` extends the index from a prefix to the next prefix. */
  lemma IndexStep(before: map<string, set<string>>, after: map<string, set<string>>,
                  words: seq<string>, i: nat, g: GuessState)
    requires i < |words| && IsIndexOf(before, words[..i], g)
    requires Matches(g, words[i]) ==> after == before[SortLetters(words[i]) := Entry(before, SortLetters(words[i])) + {words[i]}]
    requires !Matches(g, words[i]) ==> after == before
    ensures IsIndexOf(after, words[..i + 1], g)
  {
    forall k | k in after ensures after[k] == Bucket(words[..i + 1], g, k) && after[k] != {} {
      IndexEntry(before, after, words, i, g, k);
    }
    forall w | w in words[..i + 1] && Matches(g, w) ensures SortLetters(w) in after {
      IndexCovers(before, after, words, i, g, w);
    }
  }

  lemma IndexCovers(before: map<string, set<string>>, after: map<string, set<string>>,
                    words: seq<string>, i: nat, g: GuessState, w: string)
    requires i < |words|
    requires forall v :: v in words[..i] && Matches(g, v) ==> SortLetters(v) in before
    requires Matches(g, words[i]) ==> after == before[SortLetters(words[i]) := Entry(before, SortLetters(words[i])) + {words[i]}]
    requires !Matches(g, words[i]) ==> after == before
    requires w in words[..i + 1] && Matches(g, w)
    ensures SortLetters(w) in after
  {
    assert words[..i + 1] == words[..i] + [words[i]];
    if w != words[i] {
      assert w in words[..i];
    }
  }

  lemma IndexEntry(before: map<string, set<string>>, after: map<string, set<string>>,
                   words: seq<string>, i: nat, g: GuessState, k: string)
    requires i < |words| && IsIndexOf(before, words[..i], g)
    requires Matches(g, words[i]) ==> after == before[SortLetters(words[i]) := Entry(before, SortLetters(words[i])) + {words[i]}]
    requires !Matches(g, words[i]) ==> after == before
    requires k in after
    ensures after[k] == Bucket(words[..i + 1], g, k) && after[k] != {}
  {
    BucketStep(words, i, g, k);
    if k !in before {
      assert Bucket(words[..i], g, k) == {} by {
        if w :| w in Bucket(words[..i], g, k) {
          assert false;
        }
      }
    }
  }

  /** Each accepted word lies in the bucket of its own key and in no other; rejected words in none. */
  lemma IndexMembership(index: map<string, set<string>>, words: seq<string>, g: GuessState, w: string, k: string)
    requires IsIndexOf(index, words, g)
    requires k in index
    ensures w in index[k] <==> w in words && Matches(g, w) && SortLetters(w) == k
  {
  }

  /** Two indexed words share a bucket exactly when they are anagrams. */
  lemma SameBucketIffAnagram(index: map<string, set<string>>, words: seq<string>, g: GuessState,
                             v: string, w: string, k: string)
    requires IsIndexOf(index, words, g)
    requires k in index && v in index[k]
    requires w in words && Matches(g, w)
    ensures w in index[k] <==> multiset(v) == multiset(w)
  {
    SameKeyIffAnagram(v, w);
  }

  // ---------------------------------------------------------------------------------------
  // Ordering the keys

  /** `map.get(k).map(|v| v.len()).unwrap_or(0)`. */
  function Size(index: map<string, set<string>>, k: string): (r: nat)
    ensures k in index ==> r == |index[k]|
    ensures k !in index ==> r == 0
  {
    |Entry(index, k)|
  }

  predicate SortedBySize(index: map<string, set<string>>, keys: seq<string>) {
    forall i, j :: 0 <= i < j < |keys| ==> Size(index, keys[i]) <= Size(index, keys[j])
  }

  /** A key no larger than the head of a sorted list can go in front of it. */
  lemma SortedCons(index: map<string, set<string>>, k: string, keys: seq<string>)
    requires SortedBySize(index, keys)
    requires keys == [] || Size(index, k) <= Size(index, keys[0])
    ensures SortedBySize(index, [k] + keys)
  {
    var r := [k] + keys;
    forall i, j | 0 <= i < j < |r| ensures Size(index, r[i]) <= Size(index, r[j]) {
      if i == 0 && j > 1 {
        assert Size(index, keys[0]) <= Size(index, keys[j - 1]);
      }
    }
  }

  /** Inserts `k` after every key whose bucket is no larger (a stable insertion). */
  function InsertBySize(index: map<string, set<string>>, keys: seq<string>, k: string): (r: seq<string>)
    requires SortedBySize(index, keys)
    ensures SortedBySize(index, r)
    ensures |r| == |keys| + 1
    ensures forall x :: x in r <==> x in keys || x == k
    ensures Distinct(keys) && k !in keys ==> Distinct(r)
    ensures r[0] == if keys == [] || Size(index, k) < Size(index, keys[0]) then k else keys[0]
  {
    if keys == [] || Size(index, k) < Size(index, keys[0]) then
      ConsFacts(index, k, keys, k);
      [k] + keys
    else
      var rest := InsertBySize(index, keys[1..], k);
      DistinctCons(keys);
      ConsFacts(index, keys[0], rest, k);
      [keys[0]] + rest
  }

  /** Putting `h` in front of a sorted list whose head is no smaller keeps it sorted and distinct. */
  lemma ConsFacts(index: map<string, set<string>>, h: string, keys: seq<string>, k: string)
    requires SortedBySize(index, keys)
    requires keys == [] || Size(index, h) <= Size(index, keys[0])
    ensures SortedBySize(index, [h] + keys)
    ensures forall x :: x in [h] + keys <==> x in keys || x == h
    ensures Distinct(keys) && h !in keys ==> Distinct([h] + keys)
  {
    DistinctCons([h] + keys);
    assert ([h] + keys)[1..] == keys;
    SortedCons(index, h, keys);
  }

  /**
   * `map.keys()` collected in the map's (unspecified) order, then `sort_by_key` on bucket
   * size: every key exactly once, in non-decreasing order of bucket size.
   */
  method RankKeys(index: map<string, set<string>>) returns (keys: seq<string>)
    ensures forall k :: k in keys <==> k in index
    ensures Distinct(keys) && |keys| == |index|
    ensures SortedBySize(index, keys)
  {
    keys := [];
    var rest := index.Keys;
    while rest != {}
      invariant rest <= index.Keys
      invariant forall k :: k in keys <==> k in index && k !in rest
      invariant |keys| == |index.Keys - rest|
      invariant Distinct(keys)
      invariant SortedBySize(index, keys)
      decreases |rest|
    {
      var k :| k in rest;
      assert index.Keys - (rest - {k}) == (index.Keys - rest) + {k};
      keys := InsertBySize(index, keys, k);
      rest := rest - {k};
    }
    assert index.Keys - rest == index.Keys;
  }

  // ---------------------------------------------------------------------------------------
  // The report and the winner

  /** One reported line: a word or an anagram key, with its bucket size. */
  datatype Line = Line(name: string, count: nat)

  /** A bucket of one is reported as its word, any other as its key. */
  function Describe(index: map<string, set<string>>, k: string): (e: Line)
    requires k in index
    ensures e.count == |index[k]|
    ensures |index[k]| == 1 ==> index[k] == {e.name}
    ensures |index[k]| != 1 ==> e.name == k
  {
    if |index[k]| == 1 then
      var word :| word in index[k];
      assert index[k] == {word} by {
        assert |index[k] - {word}| == 0;
      }
      Line(word, 1)
    else
      Line(k, |index[k]|)
  }

  /** The last min(10, n) ranked keys, described. */
  function Report(index: map<string, set<string>>, keys: seq<string>): (r: seq<Line>)
    requires forall k :: k in keys ==> k in index
    ensures |r| == if |keys| < 10 then |keys| else 10
    ensures forall j :: 0 <= j < |r| ==> r[j] == Describe(index, keys[|keys| - |r| + j])
  {
    var top := keys[|keys| - (if |keys| < 10 then |keys| else 10)..];
    seq(|top|, j requires 0 <= j < |top| => Describe(index, top[j]))
  }

  /** Every reported bucket is at least as large as every bucket left out of the report. */
  lemma ReportShowsLargest(index: map<string, set<string>>, keys: seq<string>, j: nat, i: nat)
    requires SortedBySize(index, keys)
    requires forall k :: k in keys ==> k in index
    requires j < |Report(index, keys)| && i < |keys| - |Report(index, keys)|
    ensures |index[keys[i]]| <= Report(index, keys)[j].count
  {
    var r := Report(index, keys);
    assert Size(index, keys[i]) <= Size(index, keys[|keys| - |r| + j]);
  }

  /** `keys.last().unwrap()`: the key of a largest bucket (the source panics on no candidates). */
  function Winner(index: map<string, set<string>>, keys: seq<string>): (first: string)
    requires |keys| > 0
    requires forall k :: k in keys <==> k in index
    requires SortedBySize(index, keys)
    ensures first in index
    ensures forall k :: k in index ==> |index[k]| <= |index[first]|
  {
    var first := keys[|keys| - 1];
    assert forall i :: 0 <= i < |keys| ==> Size(index, keys[i]) <= Size(index, first);
    first
  }

  /** Re-filtering the winner's bucket with `matches` keeps all of it. */
  lemma RefilterKeepsBucket(index: map<string, set<string>>, words: seq<string>, g: GuessState, k: string)
    requires IsIndexOf(index, words, g) && k in index
    ensures (set w | w in index[k] && Matches(g, w)) == index[k]
  {
  }

  /**
   * `words.filter(|w| matches(w))`: the accepted words, each as often as the dictionary lists
   * it, in dictionary order (see `CandidatesAppend`).
   */
  function Candidates(words: seq<string>, g: GuessState): (r: seq<string>)
    ensures forall w :: w in r <==> w in words && Matches(g, w)
    ensures |r| <= |words|
  {
    if words == [] then []
    else if Matches(g, words[0]) then [words[0]] + Candidates(words[1..], g)
    else Candidates(words[1..], g)
  }

  /** An accepted word is listed as often as the dictionary lists it; a rejected one never. */
  lemma {:induction false} CandidatesCount(words: seq<string>, g: GuessState, w: string)
    ensures multiset(Candidates(words, g))[w] == if Matches(g, w) then multiset(words)[w] else 0
  {
    if words != [] {
      CandidatesCount(words[1..], g, w);
      assert words == [words[0]] + words[1..];
    }
  }

  /** Filtering keeps order: the candidates of a concatenation are the concatenated candidates. */
  lemma {:induction false} CandidatesAppend(a: seq<string>, b: seq<string>, g: GuessState)
    ensures Candidates(a + b, g) == Candidates(a, g) + Candidates(b, g)
  {
    if a == [] {
      assert a + b == b;
    } else {
      var ab := a + b;
      assert ab[0] == a[0] && ab[1..] == a[1..] + b;
      CandidatesAppend(a[1..], b, g);
      var rest := Candidates(a[1..], g);
      if Matches(g, a[0]) {
        assert Candidates(ab, g) == [a[0]] + (rest + Candidates(b, g));
        assert Candidates(a, g) == [a[0]] + rest;
      } else {
        assert Candidates(ab, g) == rest + Candidates(b, g);
        assert Candidates(a, g) == rest;
      }
    }
  }

  /** Every candidate is indexed under its key. */
  lemma CandidateIndexed(index: map<string, set<string>>, words: seq<string>, g: GuessState, w: string)
    requires IsIndexOf(index, words, g)
    requires w in Candidates(words, g)
    ensures SortLetters(w) in index && w in index[SortLetters(w)]
  {
  }
}
