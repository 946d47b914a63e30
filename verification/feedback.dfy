/**
 * The feedback decoder (`GuessState::parse`): a comma-separated history of guess tokens is
 * folded, token by token and character by character, into the constraints the candidate
 * words must satisfy.
 *
 * Token alphabet: `?X` means letter x is in the word but not at this position, an upper-case
 * letter X means x is at exactly this position, and any other character c means c is not in
 * the word at all. Every token restarts its position counter at 0.
 */
module Feedback {
  import opened Common

  /** The constraint record. Positions are 0-based character offsets within a token. */
  datatype GuessState = GuessState(
    exact: map<nat, char>,
    exactlyNot: map<nat, set<char>>,
    mustContain: set<char>,
    doesNotContain: set<char>)

  /** `GuessState::default()`: no constraints at all. */
  const Empty := GuessState(map[], map[], {}, {})

  /** The letter required at `idx`, if any. */
  function ExactAt(g: GuessState, idx: nat): Option<char> {
    if idx in g.exact then Some(g.exact[idx]) else None
  }

  /** The letters forbidden at `idx`; a missing entry forbids nothing. */
  function NotAt(g: GuessState, idx: nat): set<char> {
    if idx in g.exactlyNot then g.exactlyNot[idx] else {}
  }

  /** `exactly_not.entry(idx).or_default().insert(c)`. */
  function Forbid(m: map<nat, set<char>>, idx: nat, c: char): (r: map<nat, set<char>>)
    ensures r.Keys == m.Keys + {idx}
    ensures r[idx] == (if idx in m then m[idx] else {}) + {c}
    ensures forall p :: p in m && p != idx ==> r[p] == m[p]
  {
    m[idx := (if idx in m then m[idx] else {}) + {c}]
  }

  /**
   * The record stores no upper-case character: the decoder lower-cases the letters of `?X`
   * and exact marks, and a plain character is stored only when it is not upper-case. Digits,
   * spaces and other characters may still be stored as they are.
   */
  ghost predicate Normalized(g: GuessState) {
    && (forall c :: c in g.mustContain ==> !IsUpper(c))
    && (forall c :: c in g.doesNotContain ==> !IsUpper(c))
    && (forall p :: p in g.exact ==> !IsUpper(g.exact[p]))
    && (forall p, c :: p in g.exactlyNot && c in g.exactlyNot[p] ==> !IsUpper(c))
  }

  /** Every constraint of `a` is still present in `b` (an exact letter may have been replaced). */
  ghost predicate Grows(a: GuessState, b: GuessState) {
    && a.mustContain <= b.mustContain
    && a.doesNotContain <= b.doesNotContain
    && a.exact.Keys <= b.exact.Keys
    && forall p :: NotAt(a, p) <= NotAt(b, p)
  }

  // ---------------------------------------------------------------------------------------
  // Splitting the history (`str::split(',')`)

  /** The pieces of `s` between commas; the empty string is one empty piece. */
  function Split(s: string): (tokens: seq<string>)
    ensures |tokens| >= 1
    ensures forall i :: 0 <= i < |tokens| ==> ',' !in tokens[i]
  {
    if s == [] then
      [[]]
    else
      var rest := Split(s[1..]);
      if s[0] == ',' then [[]] + rest else [[s[0]] + rest[0]] + rest[1..]
  }

  /** The inverse of `Split`: the pieces glued back with commas. */
  function Join(tokens: seq<string>): string
    requires |tokens| >= 1
  {
    if |tokens| == 1 then tokens[0] else tokens[0] + [','] + Join(tokens[1..])
  }

  lemma {:induction false} JoinSplit(s: string)
    ensures Join(Split(s)) == s
  {
    if s != [] {
      JoinSplit(s[1..]);
      var rest := Split(s[1..]);
      if s[0] == ',' {
        assert Split(s) == [[]] + rest;
        assert Split(s)[1..] == rest;
      } else {
        assert Split(s) == [[s[0]] + rest[0]] + rest[1..];
        if |rest| > 1 {
          assert Split(s)[1..] == rest[1..];
          assert Join(rest) == rest[0] + [','] + Join(rest[1..]);
        }
      }
    }
  }

  lemma {:induction false} SplitJoin(tokens: seq<string>)
    requires |tokens| >= 1
    requires forall i :: 0 <= i < |tokens| ==> ',' !in tokens[i]
    ensures Split(Join(tokens)) == tokens
  {
    if |tokens| == 1 {
      SplitCommaFree(tokens[0]);
    } else {
      SplitJoin(tokens[1..]);
      SplitAppend(tokens[0], Join(tokens[1..]));
      SplitCommaFree(tokens[0]);
      assert tokens == [tokens[0]] + tokens[1..];
    }
  }

  /** A comma-free string is a single token. */
  lemma {:induction false} SplitCommaFree(t: string)
    requires ',' !in t
    ensures Split(t) == [t]
  {
    if t != [] {
      SplitCommaFree(t[1..]);
      assert t == [t[0]] + t[1..];
    }
  }

  /** A comma separates the tokens of what precedes it from those of what follows it. */
  lemma {:induction false} SplitAppend(a: string, b: string)
    ensures Split(a + [','] + b) == Split(a) + Split(b)
  {
    if a == [] {
      assert [] + [','] + b == [','] + b;
      assert ([','] + b)[1..] == b;
    } else {
      assert (a + [','] + b)[1..] == a[1..] + [','] + b;
      SplitAppend(a[1..], b);
    }
  }

  // ---------------------------------------------------------------------------------------
  // Decoding one token

  /** What one step of the scan decodes: one position's worth of feedback. */
  datatype Mark = Present(letter: char) | Exact(letter: char) | Absent(letter: char)

  /**
   * The scan succeeds: no `?` is left without a following character (the source panics). A
   * token without `?` always succeeds; one whose only `?` is its last character never does.
   */
  predicate TokenOk(t: string): (ok: bool)
    ensures '?' !in t ==> ok
    ensures |t| > 0 && t[|t| - 1] == '?' && '?' !in t[..|t| - 1] ==> !ok
  {
    if t == [] then true
    else if t[0] == '?' then |t| >= 2 && TokenOk(t[2..])
    else TokenOk(t[1..])
  }

  function PresentCount(marks: seq<Mark>): nat {
    if marks == [] then 0 else (if marks[0].Present? then 1 else 0) + PresentCount(marks[1..])
  }

  /**
   * The marks a token decodes to, in position order: the k-th mark belongs to position k (the
   * position counter), and a `?X` pair takes two characters for its one position. No decoded
   * letter is upper-case.
   */
  function Decode(t: string): (marks: seq<Mark>)
    requires TokenOk(t)
    ensures |t| == |marks| + PresentCount(marks)
    ensures forall k :: 0 <= k < |marks| ==> !IsUpper(marks[k].letter)
  {
    if t == [] then []
    else
      var rest := if t[0] == '?' then Decode(t[2..]) else Decode(t[1..]);
      var m := if t[0] == '?' then Present(Lower(t[1])) else if IsUpper(t[0]) then Exact(Lower(t[0])) else Absent(t[0]);
      assert ([m] + rest)[1..] == rest;
      [m] + rest
  }

  /** Marks that a token can express: no upper-case letter stored, no comma, no stray `?`. */
  predicate Encodable(m: Mark) {
    match m
    case Present(c) => !IsUpper(c) && c != ','
    case Exact(c) => 'a' <= c <= 'z'
    case Absent(c) => !IsUpper(c) && c != ',' && c != '?'
  }

  /** The token that encodes a sequence of marks. */
  function Encode(marks: seq<Mark>): (t: string)
    requires forall k :: 0 <= k < |marks| ==> Encodable(marks[k])
    ensures ',' !in t
  {
    if marks == [] then []
    else
      assert Encodable(marks[0]);
      match marks[0]
      case Present(c) => ['?', c] + Encode(marks[1..])
      case Exact(c) => [Upper(c)] + Encode(marks[1..])
      case Absent(c) => [c] + Encode(marks[1..])
  }

  /** Decoding undoes encoding. */
  lemma {:induction false} DecodeEncode(marks: seq<Mark>)
    requires forall k :: 0 <= k < |marks| ==> Encodable(marks[k])
    ensures TokenOk(Encode(marks))
    ensures Decode(Encode(marks)) == marks
  {
    if marks != [] {
      DecodeEncode(marks[1..]);
      var t := Encode(marks);
      match marks[0]
      case Present(c) =>
        assert t[2..] == Encode(marks[1..]);
      case Exact(c) =>
        assert t[1..] == Encode(marks[1..]);
      case Absent(c) =>
        assert t[1..] == Encode(marks[1..]);
    }
  }

  // ---------------------------------------------------------------------------------------
  // Applying marks and folding tokens (the specification of `Parse`)

  /** The effect of one mark at position `idx` (one iteration of the source's scan loop). */
  function Apply(g: GuessState, m: Mark, idx: nat): (r: GuessState)
    ensures r.mustContain == g.mustContain + (if m.Present? then {m.letter} else {})
    ensures r.doesNotContain == g.doesNotContain + (if m.Absent? then {m.letter} else {})
    ensures ExactAt(r, idx) == if m.Exact? then Some(m.letter) else ExactAt(g, idx)
    ensures NotAt(r, idx) == NotAt(g, idx) + Forbidden(m)
    ensures forall p :: p != idx ==> ExactAt(r, p) == ExactAt(g, p) && NotAt(r, p) == NotAt(g, p)
    ensures Grows(g, r)
  {
    match m
    case Present(c) =>
      g.(mustContain := g.mustContain + {c}, exactlyNot := Forbid(g.exactlyNot, idx, c))
    case Exact(c) =>
      g.(exact := g.exact[idx := c])
    case Absent(c) =>
      g.(doesNotContain := g.doesNotContain + {c}, exactlyNot := Forbid(g.exactlyNot, idx, Lower(c)))
  }

  /**
   * Which keys one mark adds: an exact mark adds `idx` to `exact` only, any other mark adds it
   * to `exactly_not` only (an entry that may be new, unlike what `NotAt` can tell apart).
   */
  lemma ApplyKeys(g: GuessState, m: Mark, idx: nat)
    ensures Apply(g, m, idx).exact.Keys == g.exact.Keys + (if m.Exact? then {idx} else {})
    ensures Apply(g, m, idx).exactlyNot.Keys == g.exactlyNot.Keys + (if m.Exact? then {} else {idx})
  {
  }

  /** The marks applied in order, the first at position `idx`. */
  function ApplyMarks(g: GuessState, marks: seq<Mark>, idx: nat): (r: GuessState)
    ensures Grows(g, r)
    decreases |marks|
  {
    if marks == [] then g else ApplyMarks(Apply(g, marks[0], idx), marks[1..], idx + 1)
  }

  /** Marks with no upper-case letter keep the record free of upper case. */
  lemma {:induction false} ApplyMarksNormalized(g: GuessState, marks: seq<Mark>, idx: nat)
    requires Normalized(g)
    requires forall k :: 0 <= k < |marks| ==> !IsUpper(marks[k].letter)
    ensures Normalized(ApplyMarks(g, marks, idx))
    decreases |marks|
  {
    if marks != [] {
      var g1 := Apply(g, marks[0], idx);
      assert Normalized(g1) by {
        forall p, c | p in g1.exactlyNot && c in g1.exactlyNot[p] ensures !IsUpper(c) {
          assert c in NotAt(g1, p);
        }
        forall p | p in g1.exact ensures !IsUpper(g1.exact[p]) {
          assert ExactAt(g1, p) == Some(g1.exact[p]);
        }
      }
      ApplyMarksNormalized(g1, marks[1..], idx + 1);
    }
  }

  /** One token folded into the record: it only adds constraints. */
  function ParseToken(g: GuessState, t: string): (r: GuessState)
    requires TokenOk(t)
    ensures Grows(g, r)
  {
    ApplyMarks(g, Decode(t), 0)
  }

  predicate AllTokensOk(tokens: seq<string>) {
    forall i :: 0 <= i < |tokens| ==> TokenOk(tokens[i])
  }

  /** The left fold over the tokens, starting from the empty record. */
  function FoldTokens(tokens: seq<string>): (r: GuessState)
    requires AllTokensOk(tokens)
    ensures tokens != [] ==> Grows(FoldTokens(tokens[..|tokens| - 1]), r)
  {
    if tokens == [] then Empty
    else ParseToken(FoldTokens(tokens[..|tokens| - 1]), tokens[|tokens| - 1])
  }

  /** Folding well-formed tokens never stores an upper-case character. */
  lemma {:induction false} FoldNormalized(tokens: seq<string>)
    requires AllTokensOk(tokens)
    ensures Normalized(FoldTokens(tokens))
  {
    if tokens != [] {
      var front := tokens[..|tokens| - 1];
      FoldNormalized(front);
      ApplyMarksNormalized(FoldTokens(front), Decode(tokens[|tokens| - 1]), 0);
    }
  }

  /** The only input the source rejects: a token ending in an unpaired `?`. */
  predicate WellFormedHistory(history: string) {
    AllTokensOk(Split(history))
  }

  /** The record a history decodes to; it stores no upper-case character. */
  function ParseSpec(history: string): (r: GuessState)
    requires WellFormedHistory(history)
    ensures Normalized(r)
  {
    FoldNormalized(Split(history));
    FoldTokens(Split(history))
  }

  /** `GuessState::parse`: the fold with its mutable accumulator and position counter. */
  method Parse(history: string) returns (g: GuessState)
    requires WellFormedHistory(history)
    ensures g == ParseSpec(history)
  {
    var guesses := Split(history);
    g := Empty;
    var n := 0;
    while n < |guesses|
      invariant 0 <= n <= |guesses|
      invariant g == FoldTokens(guesses[..n])
    {
      var word := guesses[n];
      var state := g;
      var i := 0;
      var idx: nat := 0;
      while i < |word|
        invariant 0 <= i <= |word|
        invariant TokenOk(word[i..])
        invariant ApplyMarks(state, Decode(word[i..]), idx) == ParseToken(g, word)
      {
        var c := word[i];
        assert word[i..][1..] == word[i + 1..];
        if c == '?' {
          assert word[i..][2..] == word[i + 2..];
          var next := Lower(word[i + 1]);
          assert Decode(word[i..]) == [Present(next)] + Decode(word[i + 2..]);
          state := state.(mustContain := state.mustContain + {next});
          state := state.(exactlyNot := Forbid(state.exactlyNot, idx, next));
          i := i + 2;
        } else if IsUpper(c) {
          assert Decode(word[i..]) == [Exact(Lower(c))] + Decode(word[i + 1..]);
          state := state.(exact := state.exact[idx := Lower(c)]);
          i := i + 1;
        } else {
          assert Decode(word[i..]) == [Absent(c)] + Decode(word[i + 1..]);
          state := state.(doesNotContain := state.doesNotContain + {c});
          state := state.(exactlyNot := Forbid(state.exactlyNot, idx, Lower(c)));
          i := i + 1;
        }
        idx := idx + 1;
      }
      assert guesses[..n + 1][..n] == guesses[..n];
      g := state;
      n := n + 1;
    }
    assert guesses[..n] == guesses;
  }

  // ---------------------------------------------------------------------------------------
  // What the decoder records

  /** The letter a mark forbids at its own position (an exact mark forbids none). */
  function Forbidden(m: Mark): set<char> {
    match m
    case Present(c) => {c}
    case Exact(_) => {}
    case Absent(c) => {Lower(c)}
  }

  /** The mark a token places at position `p`, if it reaches that far. */
  function MarkOf(t: string, p: nat): Option<Mark>
    requires TokenOk(t)
  {
    if p < |Decode(t)| then Some(Decode(t)[p]) else None
  }

  /** `must_contain` and `does_not_contain` gain exactly the letters of present and absent marks. */
  lemma {:induction false} ApplyMarksSets(g: GuessState, marks: seq<Mark>, idx: nat)
    ensures forall c :: c in ApplyMarks(g, marks, idx).mustContain <==> c in g.mustContain || Present(c) in marks
    ensures forall c :: c in ApplyMarks(g, marks, idx).doesNotContain <==> c in g.doesNotContain || Absent(c) in marks
    decreases |marks|
  {
    if marks != [] {
      ApplyMarksSets(Apply(g, marks[0], idx), marks[1..], idx + 1);
      assert marks == [marks[0]] + marks[1..];
    }
  }

  /** The k-th mark writes `exact` at position idx + k, overwriting; other positions are kept. */
  lemma {:induction false} ApplyMarksExact(g: GuessState, marks: seq<Mark>, idx: nat)
    ensures forall p: nat :: ExactAt(ApplyMarks(g, marks, idx), p) ==
                             (if idx <= p < idx + |marks| && marks[p - idx].Exact? then Some(marks[p - idx].letter) else ExactAt(g, p))
    decreases |marks|
  {
    if marks != [] {
      var g1 := Apply(g, marks[0], idx);
      ApplyMarksExact(g1, marks[1..], idx + 1);
      forall p: nat
        ensures ExactAt(ApplyMarks(g, marks, idx), p) ==
          if idx <= p < idx + |marks| && marks[p - idx].Exact? then Some(marks[p - idx].letter) else ExactAt(g, p)
      {
        if idx + 1 <= p < idx + |marks| {
          assert marks[1..][p - (idx + 1)] == marks[p - idx];
        }
      }
    }
  }

  /** The k-th mark adds its forbidden letter to `exactly_not` at position idx + k, and nowhere else. */
  lemma {:induction false} ApplyMarksNotAt(g: GuessState, marks: seq<Mark>, idx: nat)
    ensures forall p: nat :: NotAt(ApplyMarks(g, marks, idx), p) ==
                             NotAt(g, p) + (if idx <= p < idx + |marks| then Forbidden(marks[p - idx]) else {})
    decreases |marks|
  {
    if marks != [] {
      var g1 := Apply(g, marks[0], idx);
      ApplyMarksNotAt(g1, marks[1..], idx + 1);
      forall p: nat
        ensures NotAt(ApplyMarks(g, marks, idx), p) ==
          NotAt(g, p) + if idx <= p < idx + |marks| then Forbidden(marks[p - idx]) else {}
      {
        if idx + 1 <= p < idx + |marks| {
          assert marks[1..][p - (idx + 1)] == marks[p - idx];
        }
      }
    }
  }

  /** The letters one token adds to `must_contain` and `does_not_contain`. */
  lemma ParseTokenSets(g: GuessState, t: string, c: char)
    requires TokenOk(t)
    ensures c in ParseToken(g, t).mustContain <==> c in g.mustContain || Present(c) in Decode(t)
    ensures c in ParseToken(g, t).doesNotContain <==> c in g.doesNotContain || Absent(c) in Decode(t)
  {
    ApplyMarksSets(g, Decode(t), 0);
  }

  /** What one token leaves at position p of `exact` and `exactly_not`. */
  lemma ParseTokenAt(g: GuessState, t: string, p: nat)
    requires TokenOk(t)
    ensures ExactAt(ParseToken(g, t), p) ==
      (if MarkOf(t, p).Some? && MarkOf(t, p).value.Exact? then Some(MarkOf(t, p).value.letter) else ExactAt(g, p))
    ensures NotAt(ParseToken(g, t), p) ==
      NotAt(g, p) + (if MarkOf(t, p).Some? then Forbidden(MarkOf(t, p).value) else {})
  {
    ApplyMarksExact(g, Decode(t), 0);
    ApplyMarksNotAt(g, Decode(t), 0);
  }

  /** The empty history decodes to the empty record. */
  lemma ParseEmpty()
    ensures WellFormedHistory("")
    ensures ParseSpec("") == Empty
  {
    assert Split("") == [""];
    assert Decode("") == [];
  }

  /** Appending a token folds it into the record of the history before it; nothing is lost. */
  lemma ParseAppend(history: string, t: string)
    requires WellFormedHistory(history)
    requires ',' !in t && TokenOk(t)
    ensures WellFormedHistory(history + [','] + t)
    ensures ParseSpec(history + [','] + t) == ParseToken(ParseSpec(history), t)
    ensures Grows(ParseSpec(history), ParseSpec(history + [','] + t))
  {
    var ts := Split(history);
    SplitAppend(history, t);
    SplitCommaFree(t);
    var ts' := Split(history + [','] + t);
    assert ts' == ts + [t];
    assert ts'[..|ts'| - 1] == ts;
  }

  /** One fold step for the two letter sets: the last token's marks join those of the prefix. */
  lemma FoldStepSets(tokens: seq<string>, c: char)
    requires AllTokensOk(tokens) && tokens != []
    ensures AllTokensOk(tokens[..|tokens| - 1])
    ensures c in FoldTokens(tokens).mustContain <==>
      c in FoldTokens(tokens[..|tokens| - 1]).mustContain || Present(c) in Decode(tokens[|tokens| - 1])
    ensures c in FoldTokens(tokens).doesNotContain <==>
      c in FoldTokens(tokens[..|tokens| - 1]).doesNotContain || Absent(c) in Decode(tokens[|tokens| - 1])
  {
    ParseTokenSets(FoldTokens(tokens[..|tokens| - 1]), tokens[|tokens| - 1], c);
  }

  /** A letter is required somewhere iff some token has a present mark for it. */
  lemma {:induction false} FoldMust(tokens: seq<string>, c: char)
    requires AllTokensOk(tokens)
    ensures c in FoldTokens(tokens).mustContain <==>
      exists i :: 0 <= i < |tokens| && Present(c) in Decode(tokens[i])
  {
    if tokens != [] {
      var n := |tokens| - 1;
      var front := tokens[..n];
      FoldStepSets(tokens, c);
      FoldMust(front, c);
      if c in FoldTokens(tokens).mustContain {
        if c in FoldTokens(front).mustContain {
          var i :| 0 <= i < |front| && Present(c) in Decode(front[i]);
          assert tokens[i] == front[i];
        } else {
          assert Present(c) in Decode(tokens[n]);
        }
      } else {
        forall i | 0 <= i < |tokens| ensures Present(c) !in Decode(tokens[i]) {
          if i < n {
            assert tokens[i] == front[i];
            assert Present(c) !in Decode(front[i]);
          } else {
            assert i == n;
          }
        }
      }
    }
  }

  /** A letter is excluded everywhere iff some token has an absent mark for it. */
  lemma {:induction false} FoldAbsent(tokens: seq<string>, c: char)
    requires AllTokensOk(tokens)
    ensures c in FoldTokens(tokens).doesNotContain <==>
      exists i :: 0 <= i < |tokens| && Absent(c) in Decode(tokens[i])
  {
    if tokens != [] {
      var n := |tokens| - 1;
      var front := tokens[..n];
      FoldStepSets(tokens, c);
      FoldAbsent(front, c);
      if c in FoldTokens(tokens).doesNotContain {
        if c in FoldTokens(front).doesNotContain {
          var i :| 0 <= i < |front| && Absent(c) in Decode(front[i]);
          assert tokens[i] == front[i];
        } else {
          assert Absent(c) in Decode(tokens[n]);
        }
      } else {
        forall i | 0 <= i < |tokens| ensures Absent(c) !in Decode(tokens[i]) {
          if i < n {
            assert tokens[i] == front[i];
            assert Absent(c) !in Decode(front[i]);
          } else {
            assert i == n;
          }
        }
      }
    }
  }

  /** One fold step at position p: the last token's mark there joins what the prefix left. */
  lemma FoldStepAt(tokens: seq<string>, p: nat)
    requires AllTokensOk(tokens) && tokens != []
    ensures AllTokensOk(tokens[..|tokens| - 1])
    ensures var t := tokens[|tokens| - 1];
      ExactAt(FoldTokens(tokens), p) ==
        if MarkOf(t, p).Some? && MarkOf(t, p).value.Exact? then Some(MarkOf(t, p).value.letter)
        else ExactAt(FoldTokens(tokens[..|tokens| - 1]), p)
    ensures var t := tokens[|tokens| - 1];
      NotAt(FoldTokens(tokens), p) ==
        NotAt(FoldTokens(tokens[..|tokens| - 1]), p) + if MarkOf(t, p).Some? then Forbidden(MarkOf(t, p).value) else {}
  {
    ParseTokenAt(FoldTokens(tokens[..|tokens| - 1]), tokens[|tokens| - 1], p);
  }

  /** The letters forbidden at position p: those that some token's p-th mark forbids. */
  lemma {:induction false} FoldNotAt(tokens: seq<string>, p: nat, c: char)
    requires AllTokensOk(tokens)
    ensures c in NotAt(FoldTokens(tokens), p) <==>
      exists i :: 0 <= i < |tokens| && MarkOf(tokens[i], p).Some? && c in Forbidden(MarkOf(tokens[i], p).value)
  {
    if tokens != [] {
      var n := |tokens| - 1;
      var front := tokens[..n];
      FoldStepAt(tokens, p);
      FoldNotAt(front, p, c);
      if c in NotAt(FoldTokens(tokens), p) {
        if c in NotAt(FoldTokens(front), p) {
          var i :| 0 <= i < |front| && MarkOf(front[i], p).Some? && c in Forbidden(MarkOf(front[i], p).value);
          assert tokens[i] == front[i];
        } else {
          assert MarkOf(tokens[n], p).Some? && c in Forbidden(MarkOf(tokens[n], p).value);
        }
      } else {
        forall i | 0 <= i < |tokens| ensures !(MarkOf(tokens[i], p).Some? && c in Forbidden(MarkOf(tokens[i], p).value)) {
          if i < n {
            assert tokens[i] == front[i];
            assert !(MarkOf(front[i], p).Some? && c in Forbidden(MarkOf(front[i], p).value));
          } else {
            assert i == n;
          }
        }
      }
    }
  }

  predicate ExactMarkAt(t: string, p: nat)
    requires TokenOk(t)
  {
    MarkOf(t, p).Some? && MarkOf(t, p).value.Exact?
  }

  /** Position p has a required letter iff some token has an exact mark there. */
  lemma {:induction false} FoldExactDefined(tokens: seq<string>, p: nat)
    requires AllTokensOk(tokens)
    ensures ExactAt(FoldTokens(tokens), p).Some? <==> exists i :: 0 <= i < |tokens| && ExactMarkAt(tokens[i], p)
  {
    if tokens != [] {
      var n := |tokens| - 1;
      var front := tokens[..n];
      FoldStepAt(tokens, p);
      FoldExactDefined(front, p);
      if ExactAt(FoldTokens(tokens), p).Some? {
        if ExactAt(FoldTokens(front), p).Some? {
          var i :| 0 <= i < |front| && ExactMarkAt(front[i], p);
          assert tokens[i] == front[i];
        } else {
          assert ExactMarkAt(tokens[n], p);
        }
      } else {
        forall i | 0 <= i < |tokens| ensures !ExactMarkAt(tokens[i], p) {
          if i < n {
            assert tokens[i] == front[i];
            assert !ExactMarkAt(front[i], p);
          } else {
            assert i == n;
          }
        }
      }
    }
  }

  /** The letter required at position p is that of the LAST token with an exact mark there. */
  lemma {:induction false} FoldExactLast(tokens: seq<string>, p: nat, i: nat)
    requires AllTokensOk(tokens)
    requires i < |tokens| && ExactMarkAt(tokens[i], p)
    requires forall j :: i < j < |tokens| ==> !ExactMarkAt(tokens[j], p)
    ensures ExactAt(FoldTokens(tokens), p) == Some(MarkOf(tokens[i], p).value.letter)
  {
    var n := |tokens| - 1;
    var front := tokens[..n];
    FoldStepAt(tokens, p);
    if i < n {
      forall j | i < j < |front| ensures !ExactMarkAt(front[j], p) {
        assert front[j] == tokens[j];
      }
      assert front[i] == tokens[i];
      FoldExactLast(front, p, i);
      assert !ExactMarkAt(tokens[n], p);
    } else {
      assert i == n && ExactMarkAt(tokens[n], p);
    }
  }
}
