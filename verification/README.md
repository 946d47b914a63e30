# Wordle solver constraint engine, in Dafny

A model of the constraint engine of a Wordle helper (one Rust file, `src/main.rs`). The helper
takes the history of past guesses as one string of feedback tokens. It decodes that history into
a constraint record (`GuessState`) and keeps the dictionary words that satisfy it. It buckets the
kept words by anagram key and ranks the buckets by size. It then suggests a next guess: among
the kept words that contain a chosen split letter and repeat no letter, the one with the largest
anagram bucket.

Modules (one file each):

- `Common` (`common.dfy`): `Option`, the ASCII case mapping (`IsUpper`, `Lower`, `Upper`) and
  `Distinct` (no element occurs twice).
- `Feedback` (`feedback.dfy`): the `GuessState` record and the decoder. `Parse` is the
  imperative decoder: a loop over the comma-separated tokens and, inside it, a loop over the
  characters with a position counter. It is proved equal to `ParseSpec`, a left fold of
  `ParseToken` over `Split(history)`. `ParseToken` applies the marks that `Decode` reads from a
  token: `Present` for `?X`, `Exact` for an upper-case letter and `Absent` for any other
  character. The k-th mark applies at position k. `Encode` is a right inverse of `Decode` on
  encodable marks (`DecodeEncode`); it is not a left inverse, since `?A` and `?a` both decode to
  `[Present('a')]`. The record stores no upper-case character (`Normalized`): the letters of `?X` and exact marks
  are lower-cased, and plain characters (digits and spaces included) are stored as they are,
  never upper-case.
- `Matcher` (`matcher.dfy`): `Matches`, the short-circuiting per-position test followed by the
  required-letter test. `MatchesIff` spells its closed form out per constraint, and the other
  lemmas connect decoding and matching.
- `Anagram` (`anagram.dfy`): `SortLetters`, the anagram key, and its uniqueness and anagram
  properties.
- `Ranking` (`ranking.dfy`): building the anagram index of the accepted words (`BuildIndex`),
  ordering its keys by bucket size (`RankKeys`), the top-ten report (`Report`), the winning key
  (`Winner`) and the flat list of candidates (`Candidates`).
- `Predict` (`predict.dfy`): the `filter`/`filter`/`max_by_key` selection of the next guess
  (`NextBest`, `Prediction`).

Behaviour of the code that the model keeps, including cases a reader might not expect:

- Under the history `?a,dog`, the word `abet` is rejected, because `?a` puts `a` into
  `exactly_not[0]` as well as into `must_contain`. `beta` is accepted and `dart` is rejected
  (`QuestionAThenDogMatches`).
- A later upper-case mark replaces an earlier token's `exact` entry at the same position
  (`HashMap::insert`); the last token wins (`FoldExactLast`).
- An exact hit accepts its position before `exactly_not` and `does_not_contain` are consulted
  (`ExactHitIgnoresExactlyNot`, `ExactHitIgnoresAbsent`).
- `?` consumes whatever character follows it, including another `?`. The only failing input is
  a token whose scan ends on an unpaired `?` (`TokenOk`). `??` is accepted and means "`?` is
  present".
- `max_by_key` returns the last of several equally scoring elements, and the candidate list is
  in dictionary order. The selection is therefore deterministic, and `NextBestIsLast` states the
  tie rule.

## Model

| member | source | states |
|---|---|---|
| `Common.IsUpper` | src/main.rs:31 | `is_uppercase` on ASCII holds for exactly the 26 capitals, code points 65 to 90 |
| `Common.Lower` | src/main.rs:27-40 | `to_lowercase().nth(0)` on ASCII: upper-case letters move up by 32 (A→a), every other character is unchanged, and the result is never upper-case |
| `Anagram.SortLetters` | src/main.rs:70-77 | the key is sorted ascending, has the same multiset of characters as the word, and the same length |
| `Anagram.SortedUnique` | src/main.rs:70-77 | two sorted strings with the same multiset of characters are equal, so the key of a word is unique |
| `Anagram.SortLettersIdempotent` | src/main.rs:70-77 | sorting a key again returns the key |
| `Anagram.SameKeyIffAnagram` | src/main.rs:70-77 | two words get equal keys if and only if they are anagrams (equal multisets) |
| `Anagram.SortedIsOwnKey` | src/main.rs:70-77 | a word already in ascending order is its own key |
| `Feedback.Forbid` | src/main.rs:29 | `entry(idx).or_default().insert(c)`: the set at idx becomes its old set (empty when idx had none) plus c, every other key keeps its set, and idx is the only key that may be added |
| `Feedback.Split` | src/main.rs:16 | `split(',')` yields at least one token (the empty string yields one empty token) and no token holds a comma |
| `Feedback.JoinSplit` | src/main.rs:16 | joining the tokens with commas gives back the history |
| `Feedback.SplitJoin` | src/main.rs:16 | splitting comma-joined comma-free tokens gives back the tokens |
| `Feedback.SplitCommaFree` | src/main.rs:16 | a comma-free history is a single token |
| `Feedback.SplitAppend` | src/main.rs:16 | the tokens of `a,b` are the tokens of a followed by those of b |
| `Feedback.TokenOk` | src/main.rs:24-27 | the scan that panics on an unpaired `?`: a token without `?` always succeeds, and one whose only `?` is its last character always fails |
| `Feedback.Decode` | src/main.rs:20-44 | the position counter: a token has one position per decoded mark, a `?X` pair takes two characters for its one position, and no decoded letter is upper-case |
| `Feedback.DecodeEncode` | src/main.rs:24-44 | every sequence of expressible marks encodes to a token that decodes without panicking and gives back those marks |
| `Feedback.Encode` | src/main.rs:24-44 | a right inverse of `Decode` on encodable marks (see `DecodeEncode`): the token that spells a sequence of marks (`?x`, upper-case X, plain c) contains no comma, so it stays one token of the history |
| `Feedback.Apply` | src/main.rs:26-41 | one mark at position idx: a `?X` mark adds x to `must_contain`, a plain mark adds its character to `does_not_contain`, an upper-case mark sets `exact[idx]`; `exactly_not[idx]` gains the mark's forbidden letter; every other position is unchanged and no constraint is lost |
| `Feedback.ApplyKeys` | src/main.rs:26-40 | an exact mark adds the key idx to `exact` and leaves the keys of `exactly_not` alone; any other mark adds idx to the keys of `exactly_not` (the `or_default` entry) and leaves `exact`'s keys alone |
| `Feedback.ApplyMarks` | src/main.rs:24-45 | applying a token's marks in order never removes a constraint |
| `Feedback.ParseToken` | src/main.rs:19-47 | one token folded into the record never removes a constraint: the sets and every `exactly_not` entry only grow, and exact positions stay defined |
| `Feedback.FoldTokens` | src/main.rs:16-18 | the `fold` from the default record: each token's record contains every constraint of the record before it |
| `Feedback.ParseSpec` | src/main.rs:16-18 | the record of a well-formed history holds no upper-case letter in any of its four collections |
| `Feedback.ApplyMarksNormalized` | src/main.rs:26-41 | marks without upper-case letters keep the record free of upper case |
| `Feedback.FoldNormalized` | src/main.rs:18-47 | the fold over any well-formed token list stores no upper-case character |
| `Feedback.Parse` | src/main.rs:15-49 | the fold with a mutable accumulator and a per-token position counter computes `ParseSpec(history)`, for every history without an unpaired trailing `?` |
| `Feedback.ApplyMarksSets` | src/main.rs:26-41 | `must_contain` gains exactly the letters of `?X` marks, `does_not_contain` exactly the characters of other non-upper-case marks |
| `Feedback.ApplyMarksExact` | src/main.rs:31-33 | the k-th mark, when upper-case, sets `exact` at position idx+k to its lower-case letter, overwriting; all other positions keep their entry |
| `Feedback.ApplyMarksNotAt` | src/main.rs:26-41 | the k-th mark adds its letter (lower-cased) to `exactly_not` at position idx+k unless it is an exact mark; nothing else changes |
| `Feedback.ParseTokenSets` | src/main.rs:24-45 | what one token adds to `must_contain` and `does_not_contain` |
| `Feedback.ParseTokenAt` | src/main.rs:24-45 | what one token leaves at position p of `exact` and `exactly_not`, read through the mark at p |
| `Feedback.ParseEmpty` | src/main.rs:15-24 | the empty history is well formed and decodes to the default record with all four collections empty |
| `Feedback.ParseAppend` | src/main.rs:16-18 | decoding `history,t` is decoding t on top of the record of history, and that record only grows |
| `Feedback.FoldMust` | src/main.rs:26-30 | a letter is required iff some token has a `?X` mark for it |
| `Feedback.FoldAbsent` | src/main.rs:34-41 | a character is excluded iff some token has a plain mark for it |
| `Feedback.FoldNotAt` | src/main.rs:26-41 | a letter is forbidden at position p iff the p-th mark of some token forbids it |
| `Feedback.FoldExactDefined` | src/main.rs:31-33 | position p has an exact letter iff some token has an upper-case mark at p |
| `Feedback.FoldExactLast` | src/main.rs:31-33 | the exact letter at p is the one of the last token with an upper-case mark at p |
| `Matcher.PositionOk` | src/main.rs:53-65 | at a position with an exact letter the test passes iff the character is that letter; elsewhere iff the character is neither forbidden there nor in `does_not_contain` |
| `Matcher.AllPositionsOk` | src/main.rs:52-65 | the short-circuiting `all` over `char_indices` holds iff every position from i on passes its test |
| `Matcher.Matches` | src/main.rs:51-67 | a word is kept iff every position passes its test and every required letter occurs in it |
| `Matcher.MatchesIff` | src/main.rs:51-67 | a word matches iff it hits every exact position it reaches, has no forbidden or absent letter at its other positions, and contains every required letter |
| `Matcher.EmptyAcceptsAll` | src/main.rs:15-24 | the record of the empty history accepts every word |
| `Matcher.ExactMissRejects` | src/main.rs:53-54 | a word whose character differs from the exact letter at a position it reaches is rejected |
| `Matcher.ExactHitIgnoresExactlyNot` | src/main.rs:53-59 | at an exact hit, whatever `exactly_not` holds for that position does not change the verdict |
| `Matcher.ExactHitIgnoresAbsent` | src/main.rs:53-63 | a letter of `does_not_contain` that occurs only at exact hits does not reject the word |
| `Matcher.BeyondLengthIgnored` | src/main.rs:52 | positional constraints at or beyond the word's length never change the verdict |
| `Matcher.MissingRequiredRejects` | src/main.rs:66 | a required letter missing from the word rejects it |
| `Matcher.AbsentMarkRejects` | src/main.rs:34-35 | a plain mark for c in any token rejects every word with c at a position that has no exact letter |
| `Matcher.PresentMarkRejects` | src/main.rs:26-29 | a `?X` mark at position p rejects every word without x, and every word with x at p unless x is the exact letter there |
| `Matcher.ExactMarkDecides` | src/main.rs:31-32 | the last upper-case mark at p alone decides position p: a word passes p iff it has that letter there, and is rejected otherwise |
| `Matcher.QuestionAThenDog` | src/main.rs:15-49 | `?a,dog` decodes to must_contain {a}, does_not_contain {d,o,g}, exactly_not {0:{a,d}, 1:{o}, 2:{g}} and no exact entry |
| `Matcher.QuestionAThenDogMatches` | src/main.rs:51-67 | under `?a,dog`, `beta` is accepted while `abet` (a at 0) and `dart` (contains d) are rejected |
| `Ranking.Entry` | src/main.rs:95-96 | `entry(k).or_insert(..)`: an existing bucket is returned unchanged, a missing key yields the empty set |
| `Ranking.Size` | src/main.rs:103 | `get(k).map(len).unwrap_or(0)`: the bucket's size when k is a key, 0 when it is not |
| `Ranking.BuildIndex` | src/main.rs:92-99 | the map built over the dictionary holds every accepted word's key, and each key maps to the non-empty set of accepted words with that key |
| `Ranking.IndexStep` | src/main.rs:93-98 | one word of the `for_each` extends the index of a dictionary prefix to the next prefix |
| `Ranking.IndexMembership` | src/main.rs:92-99 | a word lies in a key's bucket iff it is an accepted dictionary word with that key: accepted words land in exactly one bucket, rejected words in none |
| `Ranking.SameBucketIffAnagram` | src/main.rs:92-99 | an accepted word shares a bucket with an indexed word iff they are anagrams |
| `Ranking.InsertBySize` | src/main.rs:103 | inserting a key into a key list ordered by bucket size keeps it ordered, adds exactly that key, and keeps the keys distinct |
| `Ranking.RankKeys` | src/main.rs:101-103 | the key list names every key of the map exactly once, in non-decreasing order of bucket size |
| `Ranking.Describe` | src/main.rs:110-116 | a bucket of one word is reported as that word with count 1; any other bucket as its key and its size |
| `Ranking.Report` | src/main.rs:105-118 | the report has min(10, n) lines, the descriptions of the last min(10, n) ranked keys in order |
| `Ranking.ReportShowsLargest` | src/main.rs:103-108 | every reported bucket is at least as large as every bucket left out of the report |
| `Ranking.Winner` | src/main.rs:120 | the last ranked key is a key of the map whose bucket is as large as any |
| `Ranking.RefilterKeepsBucket` | src/main.rs:128-135 | filtering the winner's bucket again with `matches` keeps every word of it |
| `Ranking.Candidates` | src/main.rs:122 | the flat candidate list holds exactly the accepted dictionary words, and no more entries than the dictionary |
| `Ranking.CandidatesCount` | src/main.rs:122 | an accepted word is listed as often as the dictionary lists it, a rejected word never |
| `Ranking.CandidatesAppend` | src/main.rs:122 | the filter keeps dictionary order: the candidates of a concatenation are the candidates of each part, concatenated |
| `Ranking.CandidateIndexed` | src/main.rs:122-124 | every candidate sits in the index under its own key |
| `Predict.DistinctCount` | src/main.rs:197-199 | a string has at most as many distinct characters as characters, and exactly as many iff no character repeats |
| `Predict.HasDistinctLetters` | src/main.rs:196-200 | the source's test (key length equals the number of distinct key characters) holds iff no letter of the word repeats |
| `Predict.Eligible` | src/main.rs:195-200 | a word passes both filters iff it contains the split letter and no letter of it repeats |
| `Predict.Score` | src/main.rs:201-204 | the score is 0 exactly when the word's key has no bucket or an empty one |
| `Predict.AnagramsScoreAlike` | src/main.rs:201-204 | anagrams share a key and so score alike |
| `Predict.NextBest` | src/main.rs:192-205 | the result is none iff no candidate contains the letter and repeats no letter; otherwise it is such a candidate, and its bucket size (0 when it has none) is at least that of every such candidate |
| `Predict.NextBestIsLast` | src/main.rs:201-205 | as with `max_by_key`, the chosen word occurs at or after every eligible word of the same score |
| `Predict.Prediction` | src/main.rs:189-205 | for the split letter `letters[feature_idx]`: none iff no candidate contains that letter with no repeated letter; otherwise such a candidate whose bucket is at least as large as that of every such candidate |

## Left out

- Decision-tree training and feature extraction (src/main.rs:140-190): the `f64` feature matrix
  and the entropy fit happen in a foreign library. The split letter is an input to
  `Prediction`, given as `letters` and an in-range `featureIdx`.
- The embedded word list and argument parsing (src/main.rs:80-85) are I/O. The dictionary is a
  `seq<string>` and the history a `string`, both passed in as parameters.
- Console output (`println!` and `dbg!`) is left out. The report's content is modelled
  (`Report`); its formatting is not.
- Hash iteration order: `RankKeys` takes the map's keys in an arbitrary order (`:|`). It then
  inserts them stably by bucket size, which stands in for the library's stable `sort_by_key`.
  The order among buckets of equal size is not pinned down.
- The library sort in `sort_letters` is modelled by insertion sort. Any sort gives the same key
  (`SortedUnique`).
- Character width: `IsUpper` and `Lower` cover ASCII only, and every other character keeps its
  case. Positions are character indices; they equal `char_indices` byte offsets for ASCII words.
  Unicode case folding and multi-byte characters are not modelled.
- Parse: the panic on an unpaired `?` is a precondition (`WellFormedHistory`), not a modelled
  crash.
- Winner: it requires at least one ranked key. The source panics on `keys.last().unwrap()` when
  no word is accepted, and this crash is not modelled.
