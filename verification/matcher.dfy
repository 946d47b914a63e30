/**
 * The candidate test (`GuessState::matches`): a word is kept when every position passes its
 * positional test and every required letter occurs somewhere in it.
 */
module Matcher {
  import opened Common
  import opened Feedback

  /**
   * The test at one position, in the source's order: an exact entry decides the position on
   * its own; otherwise the letters forbidden there and the letters absent everywhere reject.
   */
  predicate PositionOk(g: GuessState, idx: nat, c: char): (ok: bool)
    ensures idx in g.exact ==> (ok <==> c == g.exact[idx])
    ensures idx !in g.exact ==> (ok <==> c !in NotAt(g, idx) && c !in g.doesNotContain)
  {
    if idx in g.exact then g.exact[idx] == c
    else if idx in g.exactlyNot && c in g.exactlyNot[idx] then false
    else c !in g.doesNotContain
  }

  /**
   * `char_indices().all(..)` from position i on, stopping at the first failing position: it
   * holds iff every position from i on passes its test.
   */
  predicate AllPositionsOk(g: GuessState, word: string, i: nat): (ok: bool)
    requires i <= |word|
    ensures ok <==> forall j :: i <= j < |word| ==> PositionOk(g, j, word[j])
    decreases |word| - i
  {
    i == |word| || (PositionOk(g, i, word[i]) && AllPositionsOk(g, word, i + 1))
  }

  /** A word is kept iff every position passes its test and every required letter occurs in it. */
  predicate Matches(g: GuessState, word: string): (ok: bool)
    ensures ok <==> (forall i :: 0 <= i < |word| ==> PositionOk(g, i, word[i])) &&
                    (forall c :: c in g.mustContain ==> c in word)
  {
    AllPositionsOk(g, word, 0) && forall c :: c in g.mustContain ==> c in word
  }

  /**
   * What `matches` accepts, position by position: an exact entry must be hit; elsewhere the
   * letter is neither forbidden at that position nor absent from the word; and every
   * required letter occurs. Positions at or beyond the word's length play no part.
   */
  lemma MatchesIff(g: GuessState, word: string)
    ensures Matches(g, word) <==>
      && (forall i :: 0 <= i < |word| && i in g.exact ==> word[i] == g.exact[i])
      && (forall i :: 0 <= i < |word| && i !in g.exact ==> word[i] !in NotAt(g, i) && word[i] !in g.doesNotContain)
      && (forall c :: c in g.mustContain ==> c in word)
  {
  }

  /** The empty record accepts every word; so does the record of the empty history. */
  lemma EmptyAcceptsAll(word: string)
    ensures WellFormedHistory("") && Matches(ParseSpec(""), word)
  {
    ParseEmpty();
    MatchesIff(Empty, word);
  }

  /** An exact entry the word misses rejects it. */
  lemma ExactMissRejects(g: GuessState, word: string, i: nat)
    requires i < |word| && i in g.exact && word[i] != g.exact[i]
    ensures !Matches(g, word)
  {
    MatchesIff(g, word);
  }

  /** An exact hit is accepted whatever `exactly_not` holds at that position. */
  lemma ExactHitIgnoresExactlyNot(g: GuessState, word: string, i: nat, forbidden: set<char>)
    requires i < |word| && i in g.exact && word[i] == g.exact[i]
    ensures Matches(g, word) == Matches(g.(exactlyNot := g.exactlyNot[i := forbidden]), word)
  {
    var g' := g.(exactlyNot := g.exactlyNot[i := forbidden]);
    MatchesIff(g, word);
    MatchesIff(g', word);
    assert forall j :: 0 <= j < |word| && j !in g.exact ==> NotAt(g, j) == NotAt(g', j);
  }

  /** An absent letter that occurs in the word only at exact hits does not reject it. */
  lemma ExactHitIgnoresAbsent(g: GuessState, word: string, c: char)
    requires forall i :: 0 <= i < |word| && word[i] == c ==> i in g.exact && g.exact[i] == c
    ensures Matches(g, word) == Matches(g.(doesNotContain := g.doesNotContain + {c}), word)
  {
    MatchesIff(g, word);
    MatchesIff(g.(doesNotContain := g.doesNotContain + {c}), word);
  }

  /** Constraints on positions at or beyond the word's length never affect the verdict. */
  lemma BeyondLengthIgnored(g: GuessState, g': GuessState, word: string)
    requires g.mustContain == g'.mustContain && g.doesNotContain == g'.doesNotContain
    requires forall i: nat :: i < |word| ==> ExactAt(g, i) == ExactAt(g', i) && NotAt(g, i) == NotAt(g', i)
    ensures Matches(g, word) == Matches(g', word)
  {
    MatchesIff(g, word);
    MatchesIff(g', word);
    forall i | 0 <= i < |word|
      ensures (i in g.exact <==> i in g'.exact) && (i in g.exact ==> g.exact[i] == g'.exact[i])
    {
      assert ExactAt(g, i) == ExactAt(g', i);
    }
  }

  /** A required letter missing from the word rejects it. */
  lemma MissingRequiredRejects(g: GuessState, word: string, c: char)
    requires c in g.mustContain && c !in word
    ensures !Matches(g, word)
  {
  }

  // ---------------------------------------------------------------------------------------
  // Decoding followed by matching

  /**
   * A plain (absent) mark anywhere in the history rejects every word that has that
   * letter at a position without an exact entry.
   */
  lemma AbsentMarkRejects(history: string, t: nat, c: char, word: string, i: nat)
    requires WellFormedHistory(history)
    requires t < |Split(history)| && Absent(c) in Decode(Split(history)[t])
    requires i < |word| && word[i] == c && i !in ParseSpec(history).exact
    ensures !Matches(ParseSpec(history), word)
  {
    FoldAbsent(Split(history), c);
    MatchesIff(ParseSpec(history), word);
  }

  /**
   * A `?X` mark at position p of some token rejects every word without x, and every word
   * with x at position p unless the record requires exactly x there.
   */
  lemma PresentMarkRejects(history: string, t: nat, p: nat, c: char, word: string)
    requires WellFormedHistory(history)
    requires t < |Split(history)| && MarkOf(Split(history)[t], p) == Some(Present(c))
    requires c !in word || (p < |word| && word[p] == c && ExactAt(ParseSpec(history), p) != Some(c))
    ensures !Matches(ParseSpec(history), word)
  {
    var tokens := Split(history);
    assert Present(c) in Decode(tokens[t]);
    FoldMust(tokens, c);
    FoldNotAt(tokens, p, c);
    MatchesIff(ParseSpec(history), word);
  }

  /**
   * An upper-case mark at position p decides position p on its own, as long as no later token
   * places another exact mark there: the position's test passes exactly when the word has that
   * letter there, so a word that misses it is rejected.
   */
  lemma ExactMarkDecides(history: string, t: nat, p: nat, word: string)
    requires WellFormedHistory(history)
    requires t < |Split(history)| && ExactMarkAt(Split(history)[t], p)
    requires forall j :: t < j < |Split(history)| ==> !ExactMarkAt(Split(history)[j], p)
    requires p < |word|
    ensures word[p] != MarkOf(Split(history)[t], p).value.letter ==> !Matches(ParseSpec(history), word)
    ensures PositionOk(ParseSpec(history), p, word[p]) <==> word[p] == MarkOf(Split(history)[t], p).value.letter
  {
    FoldExactLast(Split(history), p, t);
    MatchesIff(ParseSpec(history), word);
  }

  lemma SplitQuestionADog()
    ensures Split("?a,dog") == ["?a", "dog"]
  {
    assert Split("") == [""];
    assert ['g'] + "" == "g";
    assert Split("g") == ["g"];
    assert ['o'] + "g" == "og";
    assert Split("og") == ["og"];
    assert ['d'] + "og" == "dog";
    assert Split("dog") == ["dog"];
    assert Split(",dog") == ["", "dog"];
    assert ['a'] + "" == "a";
    assert Split("a,dog") == ["a", "dog"];
    assert ['?'] + "a" == "?a";
  }

  lemma DecodeQuestionADog()
    ensures TokenOk("?a") && Decode("?a") == [Present('a')]
    ensures TokenOk("dog") && Decode("dog") == [Absent('d'), Absent('o'), Absent('g')]
  {
    assert "?a"[2..] == "";
    assert "dog"[1..] == "og" && "og"[1..] == "g" && "g"[1..] == "";
    assert Decode("g") == [Absent('g')];
    assert Decode("og") == [Absent('o'), Absent('g')];
  }

  /** The three `Apply` steps of the token "dog" on the record of "?a". */
  lemma QuestionADogStep0()
    ensures Apply(GuessState(map[], map[0 := {'a'}], {'a'}, {}), Absent('d'), 0) ==
            GuessState(map[], map[0 := {'a', 'd'}], {'a'}, {'d'})
  {
    var m: map<nat, set<char>> := map[0 := {'a'}];
    assert {'a'} + {'d'} == {'a', 'd'} && {} + {'d'} == {'d'};
    assert Forbid(m, 0, 'd') == map[0 := {'a', 'd'}];
  }

  lemma QuestionADogStep1()
    ensures Apply(GuessState(map[], map[0 := {'a', 'd'}], {'a'}, {'d'}), Absent('o'), 1) ==
            GuessState(map[], map[0 := {'a', 'd'}, 1 := {'o'}], {'a'}, {'d', 'o'})
  {
    var m: map<nat, set<char>> := map[0 := {'a', 'd'}];
    assert 1 !in m && {} + {'o'} == {'o'};
    assert Forbid(m, 1, 'o') == map[0 := {'a', 'd'}, 1 := {'o'}];
  }

  lemma QuestionADogStep2()
    ensures Apply(GuessState(map[], map[0 := {'a', 'd'}, 1 := {'o'}], {'a'}, {'d', 'o'}), Absent('g'), 2) ==
            GuessState(map[], map[0 := {'a', 'd'}, 1 := {'o'}, 2 := {'g'}], {'a'}, {'d', 'o', 'g'})
  {
    var m: map<nat, set<char>> := map[0 := {'a', 'd'}, 1 := {'o'}];
    assert 2 !in m && {} + {'g'} == {'g'};
    assert Forbid(m, 2, 'g') == map[0 := {'a', 'd'}, 1 := {'o'}, 2 := {'g'}];
  }

  /** The token "dog" applied to the record of "?a". */
  lemma QuestionADogSteps()
    ensures ApplyMarks(GuessState(map[], map[0 := {'a'}], {'a'}, {}), [Absent('d'), Absent('o'), Absent('g')], 0) ==
            QuestionADogRecord
  {
    var marks := [Absent('d'), Absent('o'), Absent('g')];
    QuestionADogStep0();
    QuestionADogStep1();
    QuestionADogStep2();
    assert marks[1..] == [Absent('o'), Absent('g')];
    assert marks[1..][1..] == [Absent('g')];
    assert marks[1..][1..][1..] == [];
  }

  /** The record decoded from the history "?a,dog". */
  lemma QuestionAThenDog()
    ensures WellFormedHistory("?a,dog")
    ensures ParseSpec("?a,dog") == QuestionADogRecord
  {
    SplitQuestionADog();
    DecodeQuestionADog();
    var tokens := ["?a", "dog"];
    assert tokens[..1] == ["?a"];
    FoldQuestionA();
    QuestionADogSteps();
    var g1 := GuessState(map[], map[0 := {'a'}], {'a'}, {});
    assert FoldTokens(tokens) == ParseToken(g1, "dog");
    assert ParseToken(g1, "dog") == ApplyMarks(g1, [Absent('d'), Absent('o'), Absent('g')], 0);
  }

  lemma FoldQuestionA()
    ensures AllTokensOk(["?a"])
    ensures FoldTokens(["?a"]) == GuessState(map[], map[0 := {'a'}], {'a'}, {})
  {
    DecodeQuestionADog();
    assert ["?a"][..0] == [];
    var none: map<nat, set<char>> := map[];
    assert 0 !in none && {} + {'a'} == {'a'};
    assert Forbid(none, 0, 'a') == map[0 := {'a'}];
    assert Apply(Empty, Present('a'), 0) == GuessState(map[], map[0 := {'a'}], {'a'}, {});
    assert [Present('a')][1..] == [];
  }

  /** The record decoded from "?a,dog", as `QuestionAThenDog` computes it. */
  const QuestionADogRecord :=
    GuessState(map[], map[0 := {'a', 'd'}, 1 := {'o'}, 2 := {'g'}], {'a'}, {'d', 'o', 'g'})

  lemma BetaAccepted()
    ensures Matches(QuestionADogRecord, "beta")
  {
    var g := QuestionADogRecord;
    var beta := "beta";
    forall i | 0 <= i < |beta| ensures PositionOk(g, i, beta[i]) {
      assert NotAt(g, 0) == {'a', 'd'} && NotAt(g, 1) == {'o'} && NotAt(g, 2) == {'g'} && NotAt(g, 3) == {};
    }
    assert beta[3] == 'a';
  }

  lemma AbetDartRejected()
    ensures !Matches(QuestionADogRecord, "abet")
    ensures !Matches(QuestionADogRecord, "dart")
  {
    var g := QuestionADogRecord;
    assert NotAt(g, 0) == {'a', 'd'};
    assert !PositionOk(g, 0, "abet"[0]);
    assert !PositionOk(g, 0, "dart"[0]);
  }

  /**
   * Under "?a,dog", "beta" is a candidate; "abet" is not (a is forbidden at position 0) and
   * neither is "dart" (d is absent).
   */
  lemma QuestionAThenDogMatches()
    ensures WellFormedHistory("?a,dog")
    ensures Matches(ParseSpec("?a,dog"), "beta")
    ensures !Matches(ParseSpec("?a,dog"), "abet")
    ensures !Matches(ParseSpec("?a,dog"), "dart")
  {
    QuestionAThenDog();
    BetaAccepted();
    AbetDartRejected();
  }
}
