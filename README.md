# Quiz session controller, modelled in Dafny

This project models the logic of the `QuizApp` component of the Quiz-App
repository (`App.js`) without its rendering. The component:

- loads a pool of multiple-choice questions;
- asks how many to attempt and draws that many from a shuffled copy of the pool;
- shows them one at a time, scoring each answer and showing feedback;
- after the last question, adds the player to a top-5 leaderboard and shows one of three result messages.

The model is split into four files:

- `options.dfy`: `Option`, standing for a JavaScript value that may be `null` or `NaN`.
- `leaderboard.dfy` (module `Leaderboard`): the board that `saveScore` keeps.
  - `Save` is the specification function: append the entry, stable-sort by descending score, keep five.
  - `SortDesc` is a stable insertion sort on sequences.
  - `SortByScoreDesc` sorts an array in place and is proved to compute `SortDesc`.
  - `StableSortUnique` shows that every stable descending sort gives the same board. The result therefore does not depend on the engine's `Array.prototype.sort` algorithm, only on its stability.
- `results.dfy` (module `Results`): the three-tier result message and the background colour.
- `quiz.dfy` (module `Quiz`):
  - the class `QuizApp`, whose fields are the component's state variables;
  - one method per handler: `StartQuiz`, `HandleAnswer`, `GoToNextQuestion`, `SaveScore` and the count field's `SetNumQuestions`;
  - the choice of screen, `CurrentPhase`.
  - `Valid()` is the invariant that holds between handlers. The ghost field `answered` records whether each answer of the attempt was correct, so the invariant can say that `score` counts the correct answers.

Inputs that come from the browser are parameters:

- the fetched pool and the stored board (constructor);
- the integer parsed from the count field, `None` for `null`/`NaN` (`SetNumQuestions`);
- the permutation of the pool that `shuffleArray` returns (`StartQuiz`, which requires it to have the pool's multiset);
- the name returned by `prompt`, `None` when cancelled (`GoToNextQuestion`, `SaveScore`).

The UI only lets some handlers run in some states. The handlers' `requires` clauses state these conditions:

- answer buttons exist only on the question screen and are disabled once feedback is shown (App.js:164);
- the "next" button is shown only after an answer (App.js:182);
- the count field exists only on the configuration screen (App.js:99-117).

Restart follows the code: the result screen's button calls `startQuiz` again with the stored count (App.js:140), so a restart goes straight to a new attempt. It never returns to the count form: `StartQuiz` promises that a restart from the result screen always starts a new attempt of the same length, because the count that started the attempt is still stored.

## Model

| member | source | states |
|---|---|---|
| Quiz.CheckCount | App.js:49-52 | a count is accepted exactly when it is present and 1 <= count <= pool size; missing/NaN (None), 0, negative and too-large counts are rejected; an accepted count is returned unchanged |
| Quiz.Select | App.js:53 | the attempt's questions are the first `n` of the shuffled pool: exactly `n` of them, each occurring no more often than in the shuffled pool |
| Quiz.SelectionFromPool | App.js:53 | when the shuffle is a permutation of the pool, the selection is a sub-multiset of the pool, and a pool without repeated questions gives a selection without repeats |
| Quiz.QuizApp.constructor | App.js:9-18 | the initial state: empty selection, index 0, score 0, no result, no feedback, next hidden, count unset, the pool and the stored board as given; the configure screen is shown |
| Quiz.QuizApp.SetNumQuestions | App.js:108 | the count field's change handler stores the parsed count and nothing else |
| Quiz.QuizApp.StartQuiz | App.js:48-61 | a rejected count changes no state; an accepted count `n` selects the first `n` of the shuffled pool and resets index, score, feedback, result and next button, giving the question screen; the board and the count are kept; as restart from the result screen it always succeeds and selects as many questions as before |
| Quiz.QuizApp.HandleAnswer | App.js:63-75 | score rises by exactly 1 when the answer equals the current question's `correctAnswer` and is otherwise unchanged; feedback records that outcome and the correct answer; next becomes visible; score stays between 0 and `currentIndex + 1` and at most the number of questions |
| Quiz.QuizApp.GoToNextQuestion | App.js:77-89 | before the last question: index + 1, feedback cleared, next hidden, score and board unchanged; on the last question: index kept, result shown, board replaced by `Save(old board, {name, score})` with exactly one board write; score never changes |
| Quiz.QuizApp.SaveScore | App.js:91-97 | the new board is `Save(old board, {name, score})`, computed by sorting an array in place; it is sorted and has at most 5 entries; one write of the stored board |
| Quiz.QuizApp.CurrentPhase | App.js:99-120 | the count form is shown exactly when no question is selected, whatever `showResult` says; otherwise the result screen exactly when `showResult` holds, else the current question |
| Quiz.QuizApp.ScreenInvariants | App.js:99-148 | under the invariant: the count form shows a fresh session; on the question screen `selectedQuestions[currentIndex]` exists and 0 <= score <= currentIndex + 1; on the result screen every question has been answered and the score counts the correct answers |
| Quiz.QuizApp.ResultScreen | App.js:120-133 | the celebratory message is shown exactly when every answer of the attempt was correct, and the background is green exactly when the message is celebratory |
| Quiz.AllCorrect | App.js:64-66 | the count of correct answers equals the number of answers exactly when all answers were correct |
| Quiz.ExampleRun | App.js:63-125 | right, wrong, right in three questions scores 2, which earns the encouraging message; an empty board gains exactly the player's entry |
| Results.ResultMessage | App.js:121-125 | celebratory exactly when score == total; encouraging exactly when not perfect and score >= total / 2 in real division; motivational exactly when not perfect and score < total / 2 |
| Results.ResultBackground | App.js:133 | the background is green exactly when the message is the celebratory one |
| Results.ResultMessageMonotone | App.js:121-125 | for scores up to the total, a higher score never earns a lower tier of message |
| Results.ResultMessageExamples | App.js:121-125 | (5,5) celebratory, (3,5) encouraging, (1,5) motivational, (0,1) motivational, (2,4) encouraging, (2,3) encouraging |
| Leaderboard.WithScore | App.js:94 | the entries of one score, in board order: a subsequence of the board with that score |
| Leaderboard.InsertDesc | App.js:93-94 | inserting one entry into a board grows it by exactly one |
| Leaderboard.InsertDescPermutes | App.js:93-94 | insertion adds exactly the new entry to the board's multiset |
| Leaderboard.InsertDescSorted | App.js:94 | inserting into a board sorted by descending score keeps it sorted |
| Leaderboard.InsertDescStable | App.js:94 | for every score, insertion keeps the board's entries of that score in order and puts the new entry after them |
| Leaderboard.SortDesc | App.js:94 | the sort keeps the board's length |
| Leaderboard.SortDescSortsAndPermutes | App.js:94 | the sorted board is in non-increasing order of score and is a permutation of the input |
| Leaderboard.SortDescStable | App.js:94 | the sort is stable: for every score, the entries with that score keep their relative order |
| Leaderboard.StableSortUnique | App.js:94 | two boards sorted by descending score that agree on the entries of every score are equal |
| Leaderboard.SortDescIsTheStableSort | App.js:94 | a board is a stable descending sort of the input exactly when it equals `SortDesc` of the input |
| Leaderboard.SortDescOfSorted | App.js:94 | an already sorted board is left as it is |
| Leaderboard.TopFive | App.js:95-96 | the first min(5, length) entries of the board |
| Leaderboard.Save | App.js:93-96 | the saved board has at most 5 entries: the old size + 1, or 5 |
| Leaderboard.SaveSortedSubset | App.js:93-96 | the saved board is sorted by descending score and holds only entries of the old board and the new entry |
| Leaderboard.SaveIntoSorted | App.js:93-96 | on a sorted board, the save is the first five of the board with the new entry inserted after every entry that scores at least as high |
| Leaderboard.SaveFullBoardUnchanged | App.js:93-96 | a sorted board of 5 entries that all score at least the new score is unchanged by the save |
| Leaderboard.SaveWithRoom | App.js:93-96 | a sorted board with fewer than 5 entries gains exactly the new entry |
| Leaderboard.InsertDescSplit | App.js:94 | the new entry lands after the last entry scoring at least as high, ahead of all lower-scoring ones |
| Leaderboard.InsertAt | App.js:94 | one step of the in-place sort: the array prefix `a[..i+1]` becomes `InsertDesc(a[..i], a[i])` and the rest of the array is untouched |
| Leaderboard.SortByScoreDesc | App.js:94 | sorting the array in place leaves `SortDesc` of its old contents |

## Left out

- Rendering is not modelled: the JSX, the Tailwind classes and the `framer-motion` animation state `animateAnswer` are display only.
- Sound (`useSound`, `playSuccess`, `playError`, `playFinish`) is left out. These calls are fire-and-forget and do not affect state.
- Fetching and parsing `questions.json` is left out, including the first shuffle of the fetched pool. The constructor takes the pool already shuffled. A failed fetch is the empty pool, for which every count is rejected.
- `localStorage` is not modelled. The stored board is passed to the constructor. The ghost counter `boardWrites` stands for the write of the stored board.
- The board read at startup is taken to be a list of name/score entries. JSON that parses to anything else is not modelled.
- `shuffleArray`'s random-key sort (`Math.random`, floating-point keys) is left out. `StartQuiz` takes any permutation of the pool instead. The model therefore says nothing about how likely each order is, biased or unbiased.
- `alert`, `prompt` and `parseInt` are browser input/output. They become the boolean `started`, the `Option<string>` name and the `Option<int>` count.
- React's batching of state updates and stale closures are not modelled. Each handler is one atomic transition on the current state.
- `HandleAnswer` accepts any string as the answer. The buttons offer only the current question's options, but the model does not need that restriction.
- The question records are not checked to contain their `correctAnswer` among their `options`, because the code does not check it either.
- `SortByScoreDesc` models the engine's sort with an insertion sort. Only the result of the sort is claimed, and `StableSortUnique` shows that the result does not depend on the algorithm.
- ExampleRun checks the worked session through the pure functions (`CorrectCount`, `ResultMessage`, `Save`). It does not run the `QuizApp` methods, because doing so in one proof is too costly for the verifier. The methods' contracts connect each step.
