/** Scoring a guess against the secret: the two passes over a colour-count
    table and the padding loop, proved equal to the classic black/white-peg
    feedback of Mastermind (black = exact positions, black + white = the
    colours the two codes share, counted with multiplicity). */
module Scoring {
  import opened Board

  /** One feedback peg: 'correct', 'wrongPosition' or 'incorrect'. */
  datatype Peg = Correct | WrongPosition | Incorrect

  /** n copies of peg p. */
  function Repeat(p: Peg, n: nat): seq<Peg>
  {
    seq(n, _ => p)
  }

  /** The colours of the first i positions where guess and secret agree, with multiplicity. */
  function ExactUpTo<T(==)>(secret: seq<T>, guess: seq<T>, i: nat): multiset<T>
    requires |secret| == |guess| && i <= |guess|
  {
    if i == 0 then multiset{}
    else ExactUpTo(secret, guess, i - 1) + (if guess[i - 1] == secret[i - 1] then multiset{guess[i - 1]} else multiset{})
  }

  /** The colours of the guess at the first i positions where it differs from the secret. */
  function NonExactUpTo<T(==)>(secret: seq<T>, guess: seq<T>, i: nat): multiset<T>
    requires |secret| == |guess| && i <= |guess|
  {
    if i == 0 then multiset{}
    else NonExactUpTo(secret, guess, i - 1) + (if guess[i - 1] != secret[i - 1] then multiset{guess[i - 1]} else multiset{})
  }

  function ExactColors<T(==)>(secret: seq<T>, guess: seq<T>): multiset<T>
    requires |secret| == |guess|
  {
    ExactUpTo(secret, guess, |guess|)
  }

  function NonExactColors<T(==)>(secret: seq<T>, guess: seq<T>): multiset<T>
    requires |secret| == |guess|
  {
    NonExactUpTo(secret, guess, |guess|)
  }

  /** Number of positions where guess and secret agree (the black pegs). */
  function Exact<T(==)>(secret: seq<T>, guess: seq<T>): nat
    requires |secret| == |guess|
  {
    |ExactColors(secret, guess)|
  }

  /** Number of colours the two codes share, counted with multiplicity. */
  function Common<T(==)>(secret: seq<T>, guess: seq<T>): nat
  {
    |multiset(secret) * multiset(guess)|
  }

  /** The reference feedback: the black pegs, then the white pegs, then
      'incorrect' up to the code length. */
  function Feedback<T(==)>(secret: seq<T>, guess: seq<T>): seq<Peg>
    requires |secret| == CODE_LENGTH && |guess| == CODE_LENGTH
  {
    ExactWithinCommon(secret, guess);
    CommonWithinLength(secret, guess);
    var e := Exact(secret, guess);
    var m := Common(secret, guess);
    Repeat(Correct, e) + Repeat(WrongPosition, m - e) + Repeat(Incorrect, CODE_LENGTH - m)
  }

  predicate AllCorrect(pegs: seq<Peg>)
  {
    forall i :: 0 <= i < |pegs| ==> pegs[i] == Correct
  }

  function Rank(p: Peg): nat
  {
    match p
    case Correct => 0
    case WrongPosition => 1
    case Incorrect => 2
  }

  /** Every 'correct' comes before every 'wrongPosition', which comes before every 'incorrect'. */
  predicate Ordered(pegs: seq<Peg>)
  {
    forall i, j :: 0 <= i < j < |pegs| ==> Rank(pegs[i]) <= Rank(pegs[j])
  }

  /** The count table of the source: a colour absent from the table counts 0. */
  function Get<T>(freq: map<T, int>, c: T): int
  {
    if c in freq then freq[c] else 0
  }

  // ---------------------------------------------------------------------
  // The scorer
  // ---------------------------------------------------------------------

  /** The scoring half of checkGuess: count the secret's colours, emit the
      exact matches, then the colour-only matches, then pad. */
  method ScoreGuess<T(==,!new)>(secret: seq<T>, guess: seq<T>) returns (pegs: seq<Peg>)
    requires |secret| == CODE_LENGTH && |guess| == CODE_LENGTH
    ensures pegs == Feedback(secret, guess)
  {
    var freq := CountColors(secret);
    pegs, freq := ExactPass(secret, guess, freq);
    ExactAndNonExact(secret, guess, |guess|);
    assert guess[..|guess|] == guess;
    pegs, freq := PartialPass(secret, guess, pegs, freq, ExactColors(secret, guess));
    CommonWithinLength(secret, guess);
    pegs := PadIncorrect(pegs);
  }

  /** The count table built from the secret: each colour maps to its number of occurrences. */
  method CountColors<T(==)>(secret: seq<T>) returns (freq: map<T, int>)
    ensures forall c :: Get(freq, c) == multiset(secret)[c]
  {
    freq := map[];
    var i := 0;
    while i < |secret|
      invariant 0 <= i <= |secret|
      invariant forall c :: Get(freq, c) == multiset(secret[..i])[c]
    {
      assert secret[..i + 1] == secret[..i] + [secret[i]];
      freq := freq[secret[i] := Get(freq, secret[i]) + 1];
      i := i + 1;
    }
    assert secret[..i] == secret;
  }

  /** Pass 1: a 'correct' peg per position where the guess has the secret's
      colour, each charged to the table (whose counts therefore stay
      non-negative). */
  method ExactPass<T(==)>(secret: seq<T>, guess: seq<T>, freq0: map<T, int>) returns (pegs: seq<Peg>, freq: map<T, int>)
    requires |secret| == |guess|
    requires forall c :: Get(freq0, c) == multiset(secret)[c]
    ensures pegs == Repeat(Correct, Exact(secret, guess))
    ensures forall c :: Get(freq, c) + ExactColors(secret, guess)[c] == multiset(secret)[c]
    ensures forall c :: Get(freq, c) >= 0
  {
    pegs, freq := [], freq0;
    SecretInTable(secret, freq0);
    var i := 0;
    while i < |guess|
      invariant 0 <= i <= |guess|
      invariant forall j :: 0 <= j < |secret| ==> secret[j] in freq
      invariant ExactRun(secret, guess, i, freq) == ExactRun(secret, guess, 0, freq0)
      invariant pegs == Repeat(Correct, |ExactUpTo(secret, guess, i)|)
    {
      var color := guess[i];
      if color == secret[i] {
        pegs := pegs + [Correct];
        freq := freq[color := freq[color] - 1];
      }
      i := i + 1;
    }
    forall c
      ensures Get(freq, c) + ExactColors(secret, guess)[c] == multiset(secret)[c]
    {
      ExactRunAt(secret, guess, 0, freq0, c);
    }
    ExactLeftover(secret, guess, freq);
  }

  /** What pass 1 does to the table from position i on. */
  function ExactRun<T(==)>(secret: seq<T>, guess: seq<T>, i: nat, freq: map<T, int>): map<T, int>
    requires |secret| == |guess| && i <= |guess|
    decreases |guess| - i
  {
    if i == |guess| then freq
    else if guess[i] == secret[i] then ExactRun(secret, guess, i + 1, freq[guess[i] := Get(freq, guess[i]) - 1])
    else ExactRun(secret, guess, i + 1, freq)
  }

  /** Pass 2: a 'wrongPosition' peg per non-exact position whose colour still
      has a positive count, charged to the table. Over the whole pass these
      pegs number the shared colours left over by the exact matches, and the
      counts never go negative. */
  method PartialPass<T(==,!new)>(secret: seq<T>, guess: seq<T>, pegs0: seq<Peg>, freq0: map<T, int>, ghost exact: multiset<T>)
    returns (pegs: seq<Peg>, freq: map<T, int>)
    requires |secret| == |guess|
    requires exact + NonExactColors(secret, guess) == multiset(guess)
    requires forall c :: Get(freq0, c) + exact[c] == multiset(secret)[c]
    requires forall c :: Get(freq0, c) >= 0
    ensures |exact| <= Common(secret, guess)
    ensures pegs == pegs0 + Repeat(WrongPosition, Common(secret, guess) - |exact|)
    ensures forall c :: Get(freq, c) >= 0
  {
    pegs, freq := pegs0, freq0;
    var i := 0;
    while i < |guess|
      invariant 0 <= i <= |guess|
      invariant |pegs0| <= |pegs|
      invariant pegs == pegs0 + Repeat(WrongPosition, |pegs| - |pegs0|)
      invariant PartialRun(secret, guess, 0, freq0)
             == (|pegs| - |pegs0| + PartialRun(secret, guess, i, freq).0, PartialRun(secret, guess, i, freq).1)
    {
      var color := guess[i];
      if color != secret[i] && Get(freq, color) > 0 {
        AppendRepeat(pegs0, WrongPosition, |pegs| - |pegs0|);
        pegs := pegs + [WrongPosition];
        freq := freq[color := freq[color] - 1];
      }
      i := i + 1;
    }
    PartialStart(multiset(secret), exact, freq0);
    PartialRunCount(secret, guess, 0, exact, multiset{}, freq0);
    PartialRunNonNegative(secret, guess, 0, freq0);
  }

  /** What pass 2 does from position i on, given the table at that point:
      the number of 'wrongPosition' pegs it emits and the table it leaves. */
  function PartialRun<T(==)>(secret: seq<T>, guess: seq<T>, i: nat, freq: map<T, int>): (r: (nat, map<T, int>))
    requires |secret| == |guess| && i <= |guess|
    ensures r.0 <= |guess| - i
    decreases |guess| - i
  {
    if i == |guess| then (0, freq)
    else
      var color := guess[i];
      if color != secret[i] && Get(freq, color) > 0 then
        var r := PartialRun(secret, guess, i + 1, freq[color := freq[color] - 1]);
        (r.0 + 1, r.1)
      else PartialRun(secret, guess, i + 1, freq)
  }

  /** The padding loop: append 'incorrect' until the result has CODE_LENGTH pegs. */
  method PadIncorrect(pegs0: seq<Peg>) returns (pegs: seq<Peg>)
    requires |pegs0| <= CODE_LENGTH
    ensures pegs == pegs0 + Repeat(Incorrect, CODE_LENGTH - |pegs0|)
  {
    pegs := pegs0;
    while |pegs| < CODE_LENGTH
      invariant |pegs0| <= |pegs| <= CODE_LENGTH
      invariant pegs == pegs0 + Repeat(Incorrect, |pegs| - |pegs0|)
      decreases CODE_LENGTH - |pegs|
    {
      pegs := pegs + [Incorrect];
    }
  }

  // ---------------------------------------------------------------------
  // The passes against the reference feedback
  // ---------------------------------------------------------------------

  /** The invariant of pass 2 for colour c: the table holds what the secret
      has left after the charges; it is not negative; c is charged at most
      once per non-exact position seen so far; and a non-exact position left
      uncharged means c's count ran out. */
  ghost predicate Charged<T>(S: multiset<T>, exact: multiset<T>, rest: multiset<T>, wrong: multiset<T>, freq: map<T, int>, c: T)
  {
    && Get(freq, c) + exact[c] + wrong[c] == S[c]
    && Get(freq, c) >= 0
    && wrong[c] <= rest[c]
    && (wrong[c] < rest[c] ==> Get(freq, c) == 0)
  }

  /** The invariant of pass 2, for every colour. */
  ghost predicate PartialInv<T(!new)>(S: multiset<T>, exact: multiset<T>, rest: multiset<T>, wrong: multiset<T>, freq: map<T, int>)
  {
    forall c :: Charged(S, exact, rest, wrong, freq, c)
  }

  /** One position of pass 2 keeps its invariant. */
  lemma PartialStep<T(!new)>(S: multiset<T>, exact: multiset<T>, rest: multiset<T>, wrong: multiset<T>, freq: map<T, int>, color: T, nonExact: bool)
    requires PartialInv(S, exact, rest, wrong, freq)
    ensures nonExact && Get(freq, color) > 0 ==> color in freq
    ensures var emit := nonExact && Get(freq, color) > 0;
      PartialInv(S, exact,
        if nonExact then rest + multiset{color} else rest,
        if emit then wrong + multiset{color} else wrong,
        if emit then freq[color := freq[color] - 1] else freq)
  {
    var emit := nonExact && Get(freq, color) > 0;
    var rest' := if nonExact then rest + multiset{color} else rest;
    var wrong' := if emit then wrong + multiset{color} else wrong;
    var freq' := if emit then freq[color := freq[color] - 1] else freq;
    forall c
      ensures Charged(S, exact, rest', wrong', freq', c)
    {
      assert Charged(S, exact, rest, wrong, freq, c);
      if c == color && emit {
        assert Get(freq', c) == Get(freq, c) - 1;
        assert wrong[c] == rest[c];
      }
    }
  }

  /** Before pass 2 nothing is charged to wrong positions and no position is seen. */
  lemma PartialStart<T(!new)>(S: multiset<T>, exact: multiset<T>, freq: map<T, int>)
    requires forall c :: Get(freq, c) + exact[c] == S[c]
    requires forall c :: Get(freq, c) >= 0
    ensures PartialInv(S, exact, multiset{}, multiset{}, freq)
  {
  }

  /** A table counting the secret has an entry for each of its colours. */
  lemma SecretInTable<T>(secret: seq<T>, freq: map<T, int>)
    requires forall c :: Get(freq, c) == multiset(secret)[c]
    ensures forall j :: 0 <= j < |secret| ==> secret[j] in freq
  {
    forall j | 0 <= j < |secret|
      ensures secret[j] in freq
    {
      assert Get(freq, secret[j]) > 0;
    }
  }

  /** Pass 1 from position i on lowers colour c's count once per exact
      match of c still ahead. */
  lemma {:induction false} ExactRunAt<T>(secret: seq<T>, guess: seq<T>, i: nat, freq: map<T, int>, c: T)
    requires |secret| == |guess| && i <= |guess|
    ensures Get(ExactRun(secret, guess, i, freq), c) + ExactColors(secret, guess)[c]
         == Get(freq, c) + ExactUpTo(secret, guess, i)[c]
    decreases |guess| - i
  {
    if i < |guess| {
      var color := guess[i];
      var step := if color == secret[i] && color == c then 1 else 0;
      var freq' := if color == secret[i] then freq[color := Get(freq, color) - 1] else freq;
      assert ExactRun(secret, guess, i, freq) == ExactRun(secret, guess, i + 1, freq');
      assert ExactUpTo(secret, guess, i + 1)[c] == ExactUpTo(secret, guess, i)[c] + step;
      assert Get(freq', c) == Get(freq, c) - step;
      ExactRunAt(secret, guess, i + 1, freq', c);
    }
  }

  /** What the secret has left after the exact matches is never negative. */
  lemma ExactLeftover<T>(secret: seq<T>, guess: seq<T>, freq: map<T, int>)
    requires |secret| == |guess|
    requires forall c :: Get(freq, c) + ExactColors(secret, guess)[c] == multiset(secret)[c]
    ensures forall c :: Get(freq, c) >= 0
  {
    ExactWithinCommon(secret, guess);
    forall c
      ensures Get(freq, c) >= 0
    {
      assert ExactColors(secret, guess)[c] <= (multiset(secret) * multiset(guess))[c];
    }
  }

  /** Pass 2 from position i on emits exactly the shared colours not yet charged. */
  lemma {:induction false} PartialRunCount<T(!new)>(secret: seq<T>, guess: seq<T>, i: nat, exact: multiset<T>, wrong: multiset<T>, freq: map<T, int>)
    requires |secret| == |guess| && i <= |guess|
    requires exact + NonExactColors(secret, guess) == multiset(guess)
    requires PartialInv(multiset(secret), exact, NonExactUpTo(secret, guess, i), wrong, freq)
    ensures |exact| + |wrong| + PartialRun(secret, guess, i, freq).0 == Common(secret, guess)
    decreases |guess| - i
  {
    if i == |guess| {
      SharedSplit(multiset(secret), multiset(guess), exact, NonExactUpTo(secret, guess, i), wrong, freq);
    } else {
      var color := guess[i];
      PartialStepAt(secret, guess, i, exact, wrong, freq);
      if color != secret[i] && Get(freq, color) > 0 {
        PartialRunCount(secret, guess, i + 1, exact, wrong + multiset{color}, freq[color := freq[color] - 1]);
      } else {
        PartialRunCount(secret, guess, i + 1, exact, wrong, freq);
      }
    }
  }

  /** Pass 2 only charges a colour whose count is positive, so it never
      drives a count below zero. */
  lemma {:induction false} PartialRunNonNegative<T>(secret: seq<T>, guess: seq<T>, i: nat, freq: map<T, int>)
    requires |secret| == |guess| && i <= |guess|
    requires forall c :: Get(freq, c) >= 0
    ensures forall c :: Get(PartialRun(secret, guess, i, freq).1, c) >= 0
    decreases |guess| - i
  {
    if i < |guess| {
      var color := guess[i];
      if color != secret[i] && Get(freq, color) > 0 {
        var freq' := freq[color := freq[color] - 1];
        forall c
          ensures Get(freq', c) >= 0
        {
          assert Get(freq, c) >= 0;
        }
        PartialRunNonNegative(secret, guess, i + 1, freq');
      } else {
        PartialRunNonNegative(secret, guess, i + 1, freq);
      }
    }
  }

  /** Position i of pass 2 keeps the invariant. */
  lemma PartialStepAt<T(!new)>(secret: seq<T>, guess: seq<T>, i: nat, exact: multiset<T>, wrong: multiset<T>, freq: map<T, int>)
    requires |secret| == |guess| && i < |guess|
    requires PartialInv(multiset(secret), exact, NonExactUpTo(secret, guess, i), wrong, freq)
    ensures var color := guess[i];
      if color != secret[i] && Get(freq, color) > 0 then
        color in freq
        && PartialInv(multiset(secret), exact, NonExactUpTo(secret, guess, i + 1), wrong + multiset{color}, freq[color := freq[color] - 1])
      else PartialInv(multiset(secret), exact, NonExactUpTo(secret, guess, i + 1), wrong, freq)
  {
    var color := guess[i];
    var nonExact := color != secret[i];
    var rest := NonExactUpTo(secret, guess, i);
    PartialStep(multiset(secret), exact, rest, wrong, freq, color, nonExact);
    assert NonExactUpTo(secret, guess, i + 1) == if nonExact then rest + multiset{color} else rest;
  }

  /** Once every position is seen, the exact and wrong-position charges are
      exactly the colours the two codes share. */
  lemma SharedSplit<T(!new)>(S: multiset<T>, G: multiset<T>, exact: multiset<T>, rest: multiset<T>, wrong: multiset<T>, freq: map<T, int>)
    requires exact + rest == G
    requires PartialInv(S, exact, rest, wrong, freq)
    ensures exact + wrong == S * G
    ensures |exact| + |wrong| == |S * G|
  {
    forall c
      ensures (exact + wrong)[c] == (S * G)[c]
    {
      assert Charged(S, exact, rest, wrong, freq, c);
    }
  }

  // ---------------------------------------------------------------------
  // Lemmas about the reference feedback
  // ---------------------------------------------------------------------

  lemma AppendRepeat(s: seq<Peg>, p: Peg, n: nat)
    ensures s + Repeat(p, n) + [p] == s + Repeat(p, n + 1)
  {
  }

  lemma {:induction false} RepeatCount(p: Peg, n: nat)
    ensures forall q :: multiset(Repeat(p, n))[q] == if q == p then n else 0
  {
    if n > 0 {
      RepeatCount(p, n - 1);
      assert Repeat(p, n) == Repeat(p, n - 1) + [p];
    }
  }

  lemma PrefixStep<T>(s: seq<T>, i: nat)
    requires 0 < i <= |s|
    ensures multiset(s[..i]) == multiset(s[..i - 1]) + multiset{s[i - 1]}
  {
    assert s[..i] == s[..i - 1] + [s[i - 1]];
  }

  lemma SubMultisetCard<T>(a: multiset<T>, b: multiset<T>)
    requires a <= b
    ensures |a| <= |b|
  {
    assert b == a + (b - a);
  }

  /** Exact matches are colours of both codes, so they are among the shared colours. */
  lemma {:induction false} ExactWithinBoth<T>(secret: seq<T>, guess: seq<T>, i: nat)
    requires |secret| == |guess| && i <= |guess|
    ensures ExactUpTo(secret, guess, i) <= multiset(secret[..i])
    ensures ExactUpTo(secret, guess, i) <= multiset(guess[..i])
  {
    if i > 0 {
      ExactWithinBoth(secret, guess, i - 1);
      PrefixStep(secret, i);
      PrefixStep(guess, i);
    }
  }

  lemma ExactWithinCommon<T>(secret: seq<T>, guess: seq<T>)
    requires |secret| == |guess|
    ensures ExactColors(secret, guess) <= multiset(secret) * multiset(guess)
    ensures Exact(secret, guess) <= Common(secret, guess)
  {
    ExactWithinBoth(secret, guess, |guess|);
    assert secret[..|guess|] == secret && guess[..|guess|] == guess;
    SubMultisetCard(ExactColors(secret, guess), multiset(secret) * multiset(guess));
  }

  lemma CommonWithinLength<T>(secret: seq<T>, guess: seq<T>)
    ensures Common(secret, guess) <= |secret| && Common(secret, guess) <= |guess|
  {
    SubMultisetCard(multiset(secret) * multiset(guess), multiset(secret));
    SubMultisetCard(multiset(secret) * multiset(guess), multiset(guess));
  }

  /** Every position of the guess is either an exact match or not. */
  lemma {:induction false} ExactAndNonExact<T>(secret: seq<T>, guess: seq<T>, i: nat)
    requires |secret| == |guess| && i <= |guess|
    ensures ExactUpTo(secret, guess, i) + NonExactUpTo(secret, guess, i) == multiset(guess[..i])
  {
    if i > 0 {
      ExactAndNonExact(secret, guess, i - 1);
      PrefixStep(guess, i);
    }
  }

  /** Every one of the first i positions is an exact match exactly when the
      codes agree on them. */
  lemma {:induction false} ExactAllIffEqual<T>(secret: seq<T>, guess: seq<T>, i: nat)
    requires |secret| == |guess| && i <= |guess|
    ensures |ExactUpTo(secret, guess, i)| <= i
    ensures |ExactUpTo(secret, guess, i)| == i <==> forall j :: 0 <= j < i ==> guess[j] == secret[j]
  {
    if i > 0 {
      ExactAllIffEqual(secret, guess, i - 1);
    }
  }

  /** The feedback always holds exactly CODE_LENGTH pegs, in the order
      'correct', 'wrongPosition', 'incorrect'. */
  lemma FeedbackShape<T>(secret: seq<T>, guess: seq<T>)
    requires |secret| == CODE_LENGTH && |guess| == CODE_LENGTH
    ensures |Feedback(secret, guess)| == CODE_LENGTH
    ensures Ordered(Feedback(secret, guess))
  {
    ExactWithinCommon(secret, guess);
    CommonWithinLength(secret, guess);
  }

  /** How many pegs of each kind: the 'correct' pegs count the positions where
      the codes agree, and 'correct' plus 'wrongPosition' count the colours
      they share. */
  lemma FeedbackCounts<T>(secret: seq<T>, guess: seq<T>)
    requires |secret| == CODE_LENGTH && |guess| == CODE_LENGTH
    ensures multiset(Feedback(secret, guess))[Correct] == Exact(secret, guess)
    ensures multiset(Feedback(secret, guess))[Correct] + multiset(Feedback(secret, guess))[WrongPosition]
         == |multiset(secret) * multiset(guess)|
    ensures multiset(Feedback(secret, guess))[Incorrect] == CODE_LENGTH - |multiset(secret) * multiset(guess)|
  {
    ExactWithinCommon(secret, guess);
    CommonWithinLength(secret, guess);
    var e := Exact(secret, guess);
    var m := Common(secret, guess);
    RepeatCount(Correct, e);
    RepeatCount(WrongPosition, m - e);
    RepeatCount(Incorrect, CODE_LENGTH - m);
  }

  /** The feedback is all 'correct' exactly when the guess is the secret. */
  lemma AllCorrectIffSolved<T>(secret: seq<T>, guess: seq<T>)
    requires |secret| == CODE_LENGTH && |guess| == CODE_LENGTH
    ensures AllCorrect(Feedback(secret, guess)) <==> guess == secret
  {
    ExactAllIffEqual(secret, guess, |guess|);
    ExactWithinCommon(secret, guess);
    CommonWithinLength(secret, guess);
    var f := Feedback(secret, guess);
    var e := Exact(secret, guess);
    if e < CODE_LENGTH {
      assert f[e] != Correct;
    }
  }

  /** Guessing the secret itself yields CODE_LENGTH 'correct' pegs. */
  lemma SelfFeedback<T>(secret: seq<T>)
    requires |secret| == CODE_LENGTH
    ensures Feedback(secret, secret) == Repeat(Correct, CODE_LENGTH)
  {
    ExactAllIffEqual(secret, secret, |secret|);
    assert multiset(secret) * multiset(secret) == multiset(secret);
  }

  /** A guess sharing no colour with the secret scores all 'incorrect'. */
  lemma DisjointFeedback<T>(secret: seq<T>, guess: seq<T>)
    requires |secret| == CODE_LENGTH && |guess| == CODE_LENGTH
    requires forall c :: c in guess ==> c !in secret
    ensures Feedback(secret, guess) == Repeat(Incorrect, CODE_LENGTH)
  {
    assert multiset(secret) * multiset(guess) == multiset{} by {
      forall c
        ensures (multiset(secret) * multiset(guess))[c] == 0
      {
        if c in guess {
          assert c !in multiset(secret);
        }
      }
    }
    ExactWithinCommon(secret, guess);
  }

  /** Feedback depends on the two counts alone, whatever the colours are. */
  lemma FeedbackOfEqualCounts<T, U>(secret: seq<T>, guess: seq<T>, secret': seq<U>, guess': seq<U>)
    requires |secret| == |guess| == |secret'| == |guess'| == CODE_LENGTH
    requires Exact(secret, guess) == Exact(secret', guess')
    requires Common(secret, guess) == Common(secret', guess')
    ensures Feedback(secret, guess) == Feedback(secret', guess')
  {
  }

  /** Feedback is determined by the two counts: one exact match among three
      shared colours reads 'correct', 'wrongPosition', 'wrongPosition', 'incorrect'. */
  lemma FeedbackOfCounts<T>(secret: seq<T>, guess: seq<T>)
    requires |secret| == CODE_LENGTH && |guess| == CODE_LENGTH
    requires Exact(secret, guess) == 1 && Common(secret, guess) == 3
    ensures Feedback(secret, guess) == [Correct, WrongPosition, WrongPosition, Incorrect]
  {
  }

  /** Worked example: one exact match and two colours out of place. */
  lemma WorkedExampleDistinct()
    ensures Feedback([Red, Blue, Green, Yellow], [Red, Green, Blue, Purple])
         == [Correct, WrongPosition, WrongPosition, Incorrect]
  {
    var s, g := [Red, Blue, Green, Yellow], [Red, Green, Blue, Purple];
    assert Exact(s, g) == 1 by {
      assert ExactUpTo(s, g, 1) == multiset{Red};
      assert ExactUpTo(s, g, 2) == multiset{Red};
      assert ExactUpTo(s, g, 3) == multiset{Red};
    }
    assert Common(s, g) == 3 by {
      assert multiset(s) == multiset{Red, Blue, Green, Yellow};
      assert multiset(g) == multiset{Red, Green, Blue, Purple};
      assert multiset(s) * multiset(g) == multiset{Red, Blue, Green};
    }
    FeedbackOfCounts(s, g);
  }

  /** Worked example with a repeated colour: the secret's two reds meet the
      guess's two reds once in place and once out of place. */
  lemma WorkedExampleRepeated()
    ensures Feedback([Red, Red, Blue, Green], [Red, Blue, Red, Yellow])
         == [Correct, WrongPosition, WrongPosition, Incorrect]
  {
    var s, g := [Red, Red, Blue, Green], [Red, Blue, Red, Yellow];
    assert Exact(s, g) == 1 by {
      assert ExactUpTo(s, g, 1) == multiset{Red};
      assert ExactUpTo(s, g, 2) == multiset{Red};
      assert ExactUpTo(s, g, 3) == multiset{Red};
    }
    assert Common(s, g) == 3 by {
      assert multiset(s) == multiset{Red, Red, Blue, Green};
      assert multiset(g) == multiset{Red, Blue, Red, Yellow};
      assert multiset(s) * multiset(g) == multiset{Red, Red, Blue};
    }
    FeedbackOfCounts(s, g);
  }
}
