# Mastermind game core, in Dafny

A model of the `MastermindGame` component of `src/App.js`, a browser version
of the board game Mastermind. The player composes a guess of four colours
from a palette of six, one slot at a time. Each submitted guess is scored
against a hidden four-colour secret with black/white-peg feedback: a
'correct' peg for every position holding the secret's colour, then a
'wrongPosition' peg for every further colour the two codes share, then
'incorrect' up to four pegs. The game ends on an all-'correct' feedback (a
win) or after ten guesses.

The project has three modules:

- `board.dfy` (`Board`) holds the fixed vocabulary:
  - the palette `COLORS`, `CODE_LENGTH = 4` and `MAX_ATTEMPTS = 10`;
  - the slot strings `bg-<colour>-500` that the board stores for a picked colour, with `""` marking an empty slot;
  - JavaScript's `String.prototype.replace` with a string pattern and a replacement free of '$' (`ReplaceFirst`), which the scorer uses with an empty replacement to strip a slot back to a colour name.
- `scoring.dfy` (`Scoring`) is the scoring half of `checkGuess`, written as the loops of the source:
  - the count table `codeFrequency` is a `map` in which an absent colour counts 0;
  - pass 1 and pass 2 each update that table, and a padding loop follows.
  - The scorer is generic in the colour type and is used at type `string`, as in the source.
  - It is proved equal to a reference feedback `Feedback`:
    - the black pegs are the positions where the codes agree;
    - black plus white is the size of the multiset intersection of the two codes.
  - The properties of the result are proved about `Feedback`: length, order, the counts of each peg, the solved case, the disjoint case, and two worked examples.
- `game.dfy` (`Game`) holds the game state:
  - a class `MastermindGame` with the component's state fields `secretCode`, `currentGuess`, `guesses`, `gameOver` and `win`;
  - one method per handler;
  - `SubmitGuess`, the Submit button, whose `disabled` attribute is the only place `gameOver` is checked;
  - `DismissGameOver`, the game-over dialog's click handler, which clears `gameOver`.
  - Two client methods play whole games: a win at the first attempt, and a game pushed past ten records by dismissing the dialog.

The secret code is a parameter. The mount effect and `resetGame` receive the
drawn code rather than drawing it.

## Model

| member | source | states |
|---|---|---|
| Board.PaletteComplete | src/App.js:4 | the palette lists each of the six colours exactly once; their names are distinct, non-empty and free of '-' |
| Board.Slot | src/App.js:137-140 | the string written for a picked colour is never the empty-slot marker, so the next pick moves on to another slot |
| Board.ReplaceFirstLeftmost | src/App.js:154 | `s.replace(pat, rep)` with a string pattern and a '$'-free replacement such as the '' used here: when pat first occurs at k, the result is s up to k, then rep, then s after that occurrence; later occurrences are kept |
| Board.ReplaceFirstAbsent | src/App.js:154 | `s.replace(pat, rep)` returns s unchanged when pat does not occur in it |
| Board.ReplaceFirstSuffix | src/App.js:154 | `replace('-500', '')` on a colour name followed by "-500" removes exactly that suffix |
| Board.StripSlotRoundTrip | src/App.js:154 | stripping "bg-" and then "-500" from the slot of colour c gives back c's name, which differs from what an empty slot strips to |
| Scoring.ScoreGuess | src/App.js:148-175 | the pegs computed by the count loop, the two passes and the padding loop are exactly the reference black/white feedback |
| Scoring.CountColors | src/App.js:148-151 | the table maps every colour to its number of occurrences in the secret; absent colours count 0 |
| Scoring.ExactPass | src/App.js:157-162 | pass 1 emits one 'correct' per position where the codes agree, and the table ends holding each colour's secret count minus its exact matches, never negative |
| Scoring.ExactRunAt | src/App.js:157-162 | over the rest of pass 1, colour c's count drops by exactly the number of exact matches of c still ahead |
| Scoring.ExactLeftover | src/App.js:157-162 | after pass 1 no count is negative, because exact matches are colours of both codes |
| Scoring.PartialPass | src/App.js:165-170 | pass 2 appends 'wrongPosition' pegs, as many as the shared colours minus the exact matches, and leaves no count negative |
| Scoring.PartialRun | src/App.js:165-170 | pass 2 emits at most one peg per remaining position |
| Scoring.PartialStep | src/App.js:166-169 | one position of pass 2 keeps, for every colour: the charge balance, non-negative counts, at most one charge per non-exact occurrence, and a count of zero whenever a non-exact occurrence went uncharged |
| Scoring.PartialStepAt | src/App.js:166-169 | the same step stated at position i of the guess |
| Scoring.PartialStart | src/App.js:165 | the table left by pass 1 satisfies the pass-2 invariant before any position is seen |
| Scoring.PartialRunCount | src/App.js:165-170 | from any position on, pass 2 emits exactly the shared colours that are not yet charged to an exact or a wrong-position peg |
| Scoring.PartialRunNonNegative | src/App.js:166-169 | pass 2 only decrements a positive count, so no count goes below zero |
| Scoring.SharedSplit | src/App.js:157-170 | once every position is seen, the exact and wrong-position charges together are exactly the multiset intersection of the two codes |
| Scoring.SecretInTable | src/App.js:148-151 | a table counting the secret has an entry for each of the secret's colours, so pass 1's decrement always finds one |
| Scoring.PadIncorrect | src/App.js:173-175 | the padding loop appends 'incorrect' pegs until there are CODE_LENGTH |
| Scoring.ExactWithinCommon | src/App.js:157-162 | exact matches are never double-counted: they form a sub-multiset of the shared colours |
| Scoring.CommonWithinLength | src/App.js:157-170 | the shared colours number at most the length of either code |
| Scoring.ExactAndNonExact | src/App.js:157-170 | every position of the guess is seen by exactly one of the two passes' conditions |
| Scoring.ExactAllIffEqual | src/App.js:157-162 | every position is an exact match if and only if the codes agree at every position |
| Scoring.FeedbackShape | src/App.js:153-175 | the feedback has exactly CODE_LENGTH pegs, all 'correct' first, then all 'wrongPosition', then all 'incorrect' |
| Scoring.FeedbackCounts | src/App.js:157-175 | the number of 'correct' pegs is the number of agreeing positions; 'correct' plus 'wrongPosition' is the size of the multiset intersection; the rest are 'incorrect' |
| Scoring.AllCorrectIffSolved | src/App.js:182-184 | the feedback is all 'correct' if and only if the guess equals the secret |
| Scoring.SelfFeedback | src/App.js:157-162 | guessing the secret itself yields CODE_LENGTH 'correct' pegs |
| Scoring.DisjointFeedback | src/App.js:165-175 | a guess sharing no colour with the secret scores all 'incorrect' |
| Scoring.RepeatCount | src/App.js:153-175 | a run of one peg kind contains that kind n times and no other |
| Scoring.WorkedExampleDistinct | src/App.js:157-175 | secret red-blue-green-yellow against red-green-blue-purple scores one 'correct', two 'wrongPosition' and one 'incorrect' |
| Scoring.WorkedExampleRepeated | src/App.js:157-175 | secret red-red-blue-green against red-blue-red-yellow scores the same: the second red in the guess is placed wrongly, not counted twice |
| Game.NamesInjective | src/App.js:182-184 | two colour codes are stored as equal name lists exactly when they are equal, so comparing names compares colours |
| Game.FeedbackOfNames | src/App.js:145-175 | scoring the stored name strings, as checkGuess does, gives the same feedback as scoring the colour codes they name |
| Game.FirstEmpty | src/App.js:137 | findIndex for the empty slot: -1 exactly when no slot is empty, otherwise an empty slot with no empty slot before it |
| Game.FilledSlotIsName | src/App.js:154 | a filled slot strips to the name of the colour picked into it, so the scorer only sees palette names |
| Game.MastermindGame.constructor | src/App.js:124-128 | the mounted component has no secret yet, an empty guess, an empty history and both flags false |
| Game.MastermindGame.LoadSecret | src/App.js:132-134 | the mount effect stores the drawn code's names, CODE_LENGTH of them |
| Game.MastermindGame.HandleColorSelect | src/App.js:136-143 | the colour's slot string goes into the first empty slot only; with no empty slot nothing changes; the slot strips back to the colour; slots stay well-formed |
| Game.MastermindGame.CheckGuess | src/App.js:145-188 | with an empty slot nothing changes; otherwise one record (the slots and their feedback) is appended, the guess is emptied, win is set exactly on an all-'correct' feedback, and gameOver on that or when the history reaches MAX_ATTEMPTS; guessing the secret sets both flags |
| Game.MastermindGame.SubmitGuess | src/App.js:259-261 | the disabled button does nothing; otherwise it runs checkGuess; a game played this way keeps at most MAX_ATTEMPTS records, win exactly when the last feedback is all 'correct', and gameOver exactly on a win or a full history |
| Game.MastermindGame.DismissGameOver | src/App.js:278 | dismissing the dialog clears gameOver; dismissing a finished, consistent game leaves a state in which gameOver no longer matches a win or a full history |
| Game.MastermindGame.ClearCurrentGuess | src/App.js:198-200 | every slot is empty again |
| Game.MastermindGame.ClearPeg | src/App.js:202-206 | exactly slot index is emptied and the others are kept; clearing an empty slot changes nothing |
| Game.MastermindGame.ResetGame | src/App.js:190-196 | a new secret, an empty guess, an empty history, both flags false |
| Game.FillNext | src/App.js:137-140 | with n colours picked into an empty guess, the next pick goes to slot n |
| Game.FillEnds | src/App.js:154 | picking all of a code's colours gives a full guess that strips back to the code's names |
| Game.EnterCode | src/App.js:73-74 | clicking the colours of a code in the picker, in order, fills the guess with them |
| Game.PlayCode | src/App.js:256-261 | one turn at the board: pick a code's colours and press Submit, with the resulting record and flags |
| Game.FirstGuess | src/App.js:145-188 | the first guess of a freshly mounted game is scored as its colour code against the secret, and wins and ends the game exactly when it is the secret |
| Game.WorkedExamplesAtTheBoard | src/App.js:145-188 | the two worked examples, played at the board on name strings, record 'correct', 'wrongPosition', 'wrongPosition', 'incorrect' and leave the game running |
| Game.WinAtFirstAttempt | src/App.js:182-184 | entering the secret's own colours wins at the first attempt with CODE_LENGTH 'correct' pegs |
| Game.PastTheLimit | src/App.js:278 | after ten losing guesses, dismissing the dialog re-enables Submit and an eleventh record is appended |

## Left out

- Drawing the secret: `generateSecretCode` and `Math.random` (src/App.js:9-11) are not modelled. The drawn code is a parameter of `LoadSecret` and `ResetGame`, restricted to CODE_LENGTH palette colours, which is what the generator produces.
- Rendering is not modelled: `SimpleModal`, `Peg`, `Row`, `ColorPicker`, `HelpModal`, the returned element tree and the confetti animation. The click wiring that routes a picker click to `handleColorSelect` and a peg's clear button to `clearPeg` is not modelled either; `EnterCode` only plays such clicks in order.
- Dark mode (`toggleDarkMode`, its DOM style change, `darkMode`) and the help dialog flag `showHelp` are left out: they are display state and do not touch the game.
- React's state batching is not modelled: each handler is one atomic update of the fields it sets.
- The disabled state of the "clear" button (src/App.js:250) is left out. Clearing an all-empty guess changes nothing anyway.
- The count table is a `map` in which an absent colour counts 0. JavaScript objects also inherit keys from `Object.prototype`; the model ignores them, since palette names never collide with such keys.
- Game.MastermindGame.ClearPeg: requires an index in 0..3, as the four per-slot clear buttons guarantee. In JavaScript an index of 4 or more would grow the array, and a negative one would add a stray property and leave the slots as they are; neither case is modelled.
- Game.MastermindGame.CheckGuess: requires a stored secret of CODE_LENGTH colours, as the mount effect provides. Before that effect runs, the source would score against an empty secret; that case is not modelled.
- Board.ReplaceFirst: inserts the replacement as it stands. JavaScript expands `$$`, `$&`, `` $` `` and `$'` in a replacement string; the scorer only ever replaces with '', so these substitutions are not modelled.
