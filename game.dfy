/** The game component: the secret, the four slots of the guess being
    composed, the history of scored guesses, and the game-over and win flags,
    with the handlers the board's buttons call. Each handler is one atomic
    update of these fields. */
module Game {
  import opened Board
  import opened Scoring

  /** One line of the history: the slots as submitted and their feedback. */
  datatype GuessRecord = GuessRecord(colors: seq<string>, results: seq<Peg>)

  /** The colour names a secret code is stored as. */
  function Names(code: seq<Color>): (names: seq<string>)
    ensures |names| == |code|
    ensures forall i :: 0 <= i < |code| ==> names[i] == Name(code[i])
  {
    seq(|code|, i requires 0 <= i < |code| => Name(code[i]))
  }

  /** The stored names determine the drawn code: distinct codes are stored
      as distinct secrets. */
  lemma NamesInjective(a: seq<Color>, b: seq<Color>)
    ensures Names(a) == Names(b) <==> a == b
  {
  }

  /** Names keeps the count of every colour: c occurs in a as often as its
      name occurs in Names(a). */
  lemma {:induction false} NamesCount(a: seq<Color>, c: Color)
    ensures multiset(Names(a))[Name(c)] == multiset(a)[c]
    decreases |a|
  {
    if a != [] {
      assert a == [a[0]] + a[1..];
      assert Names(a) == [Name(a[0])] + Names(a[1..]);
      NamesCount(a[1..], c);
      PaletteComplete(a[0], c);
    }
  }

  /** One more x in A grows A * B by one exactly when A held fewer x than B. */
  lemma IntersectAdd<T>(A: multiset<T>, x: T, B: multiset<T>)
    ensures |(A + multiset{x}) * B| == |A * B| + (if A[x] < B[x] then 1 else 0)
  {
    var extra: multiset<T> := if A[x] < B[x] then multiset{x} else multiset{};
    assert (A + multiset{x}) * B == A * B + extra;
  }

  /** The colours shared by two codes number as many as the names shared by
      their stored forms. */
  lemma {:induction false} CommonNames(a: seq<Color>, b: seq<Color>)
    ensures Common(Names(a), Names(b)) == Common(a, b)
    decreases |a|
  {
    if a == [] {
      assert Names(a) == [];
    } else {
      var x, rest := a[0], a[1..];
      assert a == [x] + rest;
      assert Names(a) == [Name(x)] + Names(rest);
      CommonNames(rest, b);
      NamesCount(rest, x);
      NamesCount(b, x);
      IntersectAdd(multiset(rest), x, multiset(b));
      IntersectAdd(multiset(Names(rest)), Name(x), multiset(Names(b)));
      assert multiset(a) == multiset(rest) + multiset{x};
      assert multiset(Names(a)) == multiset(Names(rest)) + multiset{Name(x)};
    }
  }

  /** Two codes agree at as many of their first i positions as their stored
      forms do. */
  lemma {:induction false} ExactNames(a: seq<Color>, b: seq<Color>, i: nat)
    requires |a| == |b| && i <= |a|
    ensures |ExactUpTo(Names(a), Names(b), i)| == |ExactUpTo(a, b, i)|
    ensures i == |a| ==> Exact(Names(a), Names(b)) == Exact(a, b)
    decreases i
  {
    if i > 0 {
      ExactNames(a, b, i - 1);
      var na, nb := Names(a), Names(b);
      assert na[i - 1] == nb[i - 1] <==> a[i - 1] == b[i - 1] by {
        PaletteComplete(a[i - 1], b[i - 1]);
      }
      if a[i - 1] == b[i - 1] {
        assert ExactUpTo(na, nb, i) == ExactUpTo(na, nb, i - 1) + multiset{na[i - 1]};
        assert ExactUpTo(a, b, i) == ExactUpTo(a, b, i - 1) + multiset{a[i - 1]};
      } else {
        assert ExactUpTo(na, nb, i) == ExactUpTo(na, nb, i - 1);
        assert ExactUpTo(a, b, i) == ExactUpTo(a, b, i - 1);
      }
    }
  }

  /** Scoring the stored names, as checkGuess does, gives the feedback of
      the colour codes they name. */
  lemma FeedbackOfNames(secret: seq<Color>, guess: seq<Color>)
    requires |secret| == CODE_LENGTH && |guess| == CODE_LENGTH
    ensures Feedback(Names(secret), Names(guess)) == Feedback(secret, guess)
  {
    ExactNames(secret, guess, |secret|);
    CommonNames(secret, guess);
    FeedbackOfEqualCounts(Names(secret), Names(guess), secret, guess);
  }

  /** The slots as the scorer reads them: each slot stripped to a colour name. */
  function GuessColors(slots: seq<string>): (colors: seq<string>)
    ensures |colors| == |slots|
    ensures forall i :: 0 <= i < |slots| ==> colors[i] == StripSlot(slots[i])
  {
    seq(|slots|, i requires 0 <= i < |slots| => StripSlot(slots[i]))
  }

  /** A guess of CODE_LENGTH empty slots. */
  function EmptyGuess(): (slots: seq<string>)
    ensures |slots| == CODE_LENGTH
    ensures forall i :: 0 <= i < |slots| ==> slots[i] == EMPTY
  {
    seq(CODE_LENGTH, _ => EMPTY)
  }

  /** Array.prototype.findIndex for the empty slot: the index of the first
      empty slot, or -1 when no slot is empty. */
  function FirstEmpty(slots: seq<string>): (k: int)
    ensures -1 <= k < |slots|
    ensures k == -1 <==> EMPTY !in slots
    ensures k != -1 ==> slots[k] == EMPTY && forall j :: 0 <= j < k ==> slots[j] != EMPTY
  {
    if |slots| == 0 then -1
    else if slots[0] == EMPTY then 0
    else
      var k := FirstEmpty(slots[1..]);
      if k == -1 then -1 else k + 1
  }

  /** A filled slot strips to the name of the colour picked for it: the
      scorer sees palette names and nothing else. */
  lemma FilledSlotIsName(slot: string)
    requires IsSlot(slot) && slot != EMPTY
    ensures exists c: Color :: slot == Slot(c) && StripSlot(slot) == Name(c)
  {
    var c: Color :| slot == Slot(c);
    StripSlotRoundTrip(c);
  }

  class MastermindGame {
    var secretCode: seq<string>
    var currentGuess: seq<string>
    var guesses: seq<GuessRecord>
    var gameOver: bool
    var win: bool

    /** The guess being composed has CODE_LENGTH slots, each empty or a picked colour. */
    ghost predicate Valid()
      reads this`currentGuess
    {
      && |currentGuess| == CODE_LENGTH
      && forall i :: 0 <= i < |currentGuess| ==> IsSlot(currentGuess[i])
    }

    /** The history and flags of a game played through the board's own
        buttons: at most MAX_ATTEMPTS records, a win exactly when the last
        feedback is all 'correct', and game over exactly on a win or when
        the attempts are used up. */
    predicate Consistent()
      reads this`guesses, this`gameOver, this`win
    {
      && |guesses| <= MAX_ATTEMPTS
      && (win <==> |guesses| > 0 && AllCorrect(guesses[|guesses| - 1].results))
      && (gameOver <==> win || |guesses| == MAX_ATTEMPTS)
    }

    /** The state when the component mounts, before the secret is drawn. */
    constructor()
      ensures secretCode == [] && currentGuess == EmptyGuess() && guesses == []
      ensures !gameOver && !win
      ensures Valid() && Consistent()
    {
      secretCode := [];
      currentGuess := EmptyGuess();
      guesses := [];
      gameOver := false;
      win := false;
    }

    /** The mount effect: store a freshly drawn code (the drawing itself is
        the caller's). */
    method LoadSecret(code: seq<Color>)
      requires |code| == CODE_LENGTH
      modifies this`secretCode
      ensures secretCode == Names(code) && |secretCode| == CODE_LENGTH
    {
      secretCode := Names(code);
    }

    /** handleColorSelect: write the colour's slot string into the first
        empty slot; with no empty slot, nothing changes. */
    method HandleColorSelect(color: Color)
      modifies this`currentGuess
      ensures var k := FirstEmpty(old(currentGuess));
        if k == -1 then currentGuess == old(currentGuess)
        else currentGuess == old(currentGuess)[k := Slot(color)]
             && StripSlot(currentGuess[k]) == Name(color)
      ensures old(Valid()) ==> Valid()
    {
      var nextEmptyIndex := FirstEmpty(currentGuess);
      if nextEmptyIndex != -1 {
        currentGuess := currentGuess[nextEmptyIndex := Slot(color)];
        StripSlotRoundTrip(color);
      }
    }

    /** checkGuess: with an empty slot it does nothing; otherwise it scores
        the stripped slots, appends the record, empties the guess, and ends
        the game on an all-'correct' feedback (a win) or when the history
        reaches MAX_ATTEMPTS. It does not look at gameOver itself. */
    method CheckGuess()
      requires Valid() && |secretCode| == CODE_LENGTH
      modifies this`currentGuess, this`guesses, this`gameOver, this`win
      ensures Valid()
      ensures EMPTY in old(currentGuess) ==>
        currentGuess == old(currentGuess) && guesses == old(guesses)
        && gameOver == old(gameOver) && win == old(win)
      ensures EMPTY !in old(currentGuess) ==>
        var results := Feedback(secretCode, GuessColors(old(currentGuess)));
        && guesses == old(guesses) + [GuessRecord(old(currentGuess), results)]
        && currentGuess == EmptyGuess()
        && win == (old(win) || AllCorrect(results))
        && gameOver == (old(gameOver) || AllCorrect(results) || |guesses| >= MAX_ATTEMPTS)
      ensures EMPTY !in old(currentGuess) ==>
        (GuessColors(old(currentGuess)) == secretCode <==> AllCorrect(guesses[|guesses| - 1].results))
      ensures EMPTY !in old(currentGuess) && GuessColors(old(currentGuess)) == secretCode ==> gameOver && win
    {
      if EMPTY in currentGuess {
        return;
      }
      var guessColors := GuessColors(currentGuess);
      var pegResults := ScoreGuess(secretCode, guessColors);
      AllCorrectIffSolved(secretCode, guessColors);
      var newGuesses := guesses + [GuessRecord(currentGuess, pegResults)];
      guesses := newGuesses;
      currentGuess := EmptyGuess();
      if AllCorrect(pegResults) {
        gameOver := true;
        win := true;
      } else if |newGuesses| >= MAX_ATTEMPTS {
        gameOver := true;
      }
    }

    /** The Submit button: disabled while a slot is empty or the game is
        over, otherwise it runs checkGuess. Played this way the history and
        flags stay consistent. */
    method SubmitGuess()
      requires Valid() && |secretCode| == CODE_LENGTH
      modifies this`currentGuess, this`guesses, this`gameOver, this`win
      ensures Valid()
      ensures old(gameOver) || EMPTY in old(currentGuess) ==>
        currentGuess == old(currentGuess) && guesses == old(guesses)
        && gameOver == old(gameOver) && win == old(win)
      ensures !old(gameOver) && EMPTY !in old(currentGuess) ==>
        var results := Feedback(secretCode, GuessColors(old(currentGuess)));
        && guesses == old(guesses) + [GuessRecord(old(currentGuess), results)]
        && currentGuess == EmptyGuess()
        && win == (old(win) || AllCorrect(results))
        && gameOver == (AllCorrect(results) || |guesses| >= MAX_ATTEMPTS)
      ensures !old(gameOver) && EMPTY !in old(currentGuess) && GuessColors(old(currentGuess)) == secretCode ==>
        gameOver && win
      ensures old(Consistent()) ==> Consistent()
    {
      if !(EMPTY in currentGuess || gameOver) {
        CheckGuess();
      }
    }

    /** Dismissing the game-over dialog clears the flag, and with it the
        Submit button's guard. */
    method DismissGameOver()
      modifies this`gameOver
      ensures !gameOver
      ensures old(Consistent()) && old(gameOver) ==> !Consistent()
    {
      gameOver := false;
    }

    /** clearCurrentGuess: every slot empty again. */
    method ClearCurrentGuess()
      modifies this`currentGuess
      ensures currentGuess == EmptyGuess()
      ensures Valid()
    {
      currentGuess := EmptyGuess();
    }

    /** clearPeg: empty slot `index`, leave the others; clearing an empty slot
        changes nothing. */
    method ClearPeg(index: int)
      requires Valid() && 0 <= index < CODE_LENGTH
      modifies this`currentGuess
      ensures currentGuess == old(currentGuess)[index := EMPTY]
      ensures old(currentGuess)[index] == EMPTY ==> currentGuess == old(currentGuess)
      ensures Valid()
    {
      currentGuess := currentGuess[index := EMPTY];
    }

    /** resetGame: a new secret, an empty guess, an empty history, both flags
        cleared. */
    method ResetGame(code: seq<Color>)
      requires |code| == CODE_LENGTH
      modifies this
      ensures secretCode == Names(code) && currentGuess == EmptyGuess() && guesses == []
      ensures !gameOver && !win
      ensures Valid() && Consistent()
    {
      secretCode := Names(code);
      currentGuess := EmptyGuess();
      guesses := [];
      gameOver := false;
      win := false;
    }
  }

  /** The guess after the first n colours of a code are picked into an empty guess. */
  function Filled(code: seq<Color>, n: nat): (slots: seq<string>)
    requires |code| == CODE_LENGTH && n <= CODE_LENGTH
    ensures |slots| == CODE_LENGTH
  {
    seq(CODE_LENGTH, i requires 0 <= i < CODE_LENGTH => if i < n then Slot(code[i]) else EMPTY)
  }

  /** With n colours picked, the next pick goes to slot n. */
  lemma FillNext(code: seq<Color>, n: nat)
    requires |code| == CODE_LENGTH && n < CODE_LENGTH
    ensures FirstEmpty(Filled(code, n)) == n
    ensures Filled(code, n)[n := Slot(code[n])] == Filled(code, n + 1)
  {
    var slots := Filled(code, n);
    forall j | 0 <= j < n
      ensures slots[j] != EMPTY
    {
    }
    assert slots[n] == EMPTY;
    var k := FirstEmpty(slots);
    assert k != -1;
    assert !(k < n) && !(n < k);
  }

  /** Nothing picked is the empty guess; everything picked is the code's slots. */
  lemma FillEnds(code: seq<Color>)
    requires |code| == CODE_LENGTH
    ensures Filled(code, 0) == EmptyGuess()
    ensures EMPTY !in Filled(code, CODE_LENGTH)
    ensures GuessColors(Filled(code, CODE_LENGTH)) == Names(code)
  {
    forall j | 0 <= j < CODE_LENGTH
      ensures Filled(code, CODE_LENGTH)[j] != EMPTY
      ensures StripSlot(Filled(code, CODE_LENGTH)[j]) == Name(code[j])
    {
      StripSlotRoundTrip(code[j]);
    }
  }

  /** Picking the colours of a code, in order, into an empty guess. */
  method EnterCode(game: MastermindGame, code: seq<Color>)
    requires |code| == CODE_LENGTH && game.currentGuess == EmptyGuess()
    modifies game`currentGuess
    ensures game.currentGuess == Filled(code, CODE_LENGTH)
  {
    FillEnds(code);
    var n := 0;
    while n < CODE_LENGTH
      invariant 0 <= n <= CODE_LENGTH && game.currentGuess == Filled(code, n)
    {
      FillNext(code, n);
      game.HandleColorSelect(code[n]);
      n := n + 1;
    }
  }

  /** A whole turn at the board while the game is running: pick the colours
      of a code, then press Submit. */
  method PlayCode(game: MastermindGame, code: seq<Color>)
    requires |code| == CODE_LENGTH && |game.secretCode| == CODE_LENGTH
    requires game.currentGuess == EmptyGuess() && !game.gameOver
    modifies game`currentGuess, game`guesses, game`gameOver, game`win
    ensures var results := Feedback(game.secretCode, Names(code));
      && game.guesses == old(game.guesses) + [GuessRecord(Filled(code, CODE_LENGTH), results)]
      && game.currentGuess == EmptyGuess()
      && game.win == (old(game.win) || AllCorrect(results))
      && game.gameOver == (AllCorrect(results) || |game.guesses| >= MAX_ATTEMPTS)
  {
    EnterCode(game, code);
    FillEnds(code);
    game.SubmitGuess();
  }

  /** The first guess of a fresh game: it is scored as the colour codes are,
      and it wins (and ends the game) exactly when it is the secret. */
  method FirstGuess(secret: seq<Color>, code: seq<Color>) returns (game: MastermindGame)
    requires |secret| == CODE_LENGTH && |code| == CODE_LENGTH
    ensures |game.guesses| == 1 && game.guesses[0].results == Feedback(secret, code)
    ensures game.win <==> code == secret
    ensures game.gameOver == game.win
  {
    game := new MastermindGame();
    game.LoadSecret(secret);
    PlayCode(game, code);
    FeedbackOfNames(secret, code);
    NamesInjective(secret, code);
    AllCorrectIffSolved(Names(secret), Names(code));
  }

  /** The two worked examples played at the board, on the stored name strings. */
  method WorkedExamplesAtTheBoard() returns (distinct: MastermindGame, repeated: MastermindGame)
    ensures |distinct.guesses| == 1 && distinct.guesses[0].results == [Correct, WrongPosition, WrongPosition, Incorrect]
    ensures |repeated.guesses| == 1 && repeated.guesses[0].results == [Correct, WrongPosition, WrongPosition, Incorrect]
    ensures !distinct.gameOver && !repeated.gameOver
  {
    distinct := FirstGuess([Red, Blue, Green, Yellow], [Red, Green, Blue, Purple]);
    WorkedExampleDistinct();
    repeated := FirstGuess([Red, Red, Blue, Green], [Red, Blue, Red, Yellow]);
    WorkedExampleRepeated();
  }

  /** Entering the secret's own colours and submitting wins at the first attempt. */
  method WinAtFirstAttempt(code: seq<Color>) returns (game: MastermindGame)
    requires |code| == CODE_LENGTH
    ensures game.gameOver && game.win && |game.guesses| == 1
    ensures game.guesses[0].results == Repeat(Correct, CODE_LENGTH)
  {
    game := new MastermindGame();
    game.LoadSecret(code);
    SelfFeedback(game.secretCode);
    AllCorrectIffSolved(game.secretCode, game.secretCode);
    PlayCode(game, code);
  }

  /** The attempt limit is kept only by the Submit button: after ten losing
      guesses the game is over, but dismissing the dialog re-enables the
      button and an eleventh guess is recorded. */
  method PastTheLimit() returns (game: MastermindGame)
    ensures |game.guesses| == MAX_ATTEMPTS + 1 && game.gameOver && !game.win
  {
    var secret, miss := [Red, Red, Red, Red], [Blue, Blue, Blue, Blue];
    game := new MastermindGame();
    game.LoadSecret(secret);
    AllCorrectIffSolved(Names(secret), Names(miss));
    assert Names(miss)[0] != Names(secret)[0];
    var round := 0;
    while round < MAX_ATTEMPTS
      invariant 0 <= round <= MAX_ATTEMPTS
      invariant game.secretCode == Names(secret) && game.currentGuess == EmptyGuess()
      invariant |game.guesses| == round && !game.win
      invariant game.gameOver <==> round == MAX_ATTEMPTS
    {
      PlayCode(game, miss);
      round := round + 1;
    }
    game.DismissGameOver();
    PlayCode(game, miss);
  }
}
