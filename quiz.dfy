/**
 * The quiz session controller (App.js, component `QuizApp`) with its
 * rendering taken away: the state the component keeps, the four handlers
 * that change it, and the choice of screen.
 *
 * Inputs the component gets from the browser are parameters: the question
 * pool that was fetched (already shuffled once, App.js:35), the board read
 * from local storage, the integer parsed from the count field (None for
 * `null` or `NaN`), the permutation of the pool produced by `shuffleArray`
 * and the name returned by `prompt` (None when the dialog is cancelled).
 */
module Quiz {
  import opened Options
  import opened Leaderboard
  import opened Results

  /** A record of `questions.json`. */
  datatype Question = Question(prompt: string, options: seq<string>, correctAnswer: string)

  /** What the screen shows after an answer. */
  datatype Feedback = Feedback(correct: bool, correctAnswer: string)

  /** The three screens the component renders. */
  datatype Phase = Configure | InProgress | Completed

  /** JavaScript truthiness of the parsed count: `null`, `NaN` and 0 are falsy. */
  predicate Truthy(num: Option<int>)
  {
    num.Some? && num.value != 0
  }

  /**
   * The guard of `startQuiz`: a count is accepted exactly when it is a number
   * from 1 to the size of the pool; missing, `NaN`, 0, negative and too large
   * counts are rejected.
   */
  function CheckCount(num: Option<int>, available: nat): (r: Option<nat>)
    ensures r.Some? <==> num.Some? && 1 <= num.value <= available
    ensures r.Some? ==> r.value == num.value
  {
    if !Truthy(num) || num.value <= 0 || num.value > available then None
    else Some(num.value)
  }

  /** The questions of one attempt: the first `n` of the shuffled pool (`slice(0, n)`). */
  function Select(shuffled: seq<Question>, n: nat): (r: seq<Question>)
    requires n <= |shuffled|
    ensures |r| == n
    ensures multiset(r) <= multiset(shuffled)
  {
    assert shuffled == shuffled[..n] + shuffled[n..];
    shuffled[..n]
  }

  /** No question occurs twice. */
  predicate NoDuplicates(s: seq<Question>)
  {
    forall i, j :: 0 <= i < j < |s| ==> s[i] != s[j]
  }

  lemma {:induction false} NoDuplicatesCount(s: seq<Question>, q: Question)
    requires NoDuplicates(s)
    ensures multiset(s)[q] <= 1
  {
    if s != [] {
      assert s == [s[0]] + s[1..];
      assert NoDuplicates(s[1..]) by {
        forall i, j | 0 <= i < j < |s[1..]| ensures s[1..][i] != s[1..][j] {
          assert s[1..][i] == s[i + 1] && s[1..][j] == s[j + 1];
        }
      }
      NoDuplicatesCount(s[1..], q);
      if s[0] == q {
        assert q !in s[1..] by {
          forall k | 0 <= k < |s[1..]| ensures s[1..][k] != q {
            assert s[1..][k] == s[k + 1];
          }
        }
      }
    }
  }

  lemma DuplicateCount(s: seq<Question>, i: nat, j: nat)
    requires i < j < |s| && s[i] == s[j]
    ensures multiset(s)[s[i]] >= 2
  {
    assert s == s[..j] + [s[j]] + s[j + 1..];
    assert s[..j][i] == s[i];
    assert s[i] in multiset(s[..j]);
  }

  /**
   * The selection of one attempt is drawn from the pool: it never holds a
   * question more often than the pool does, and from a pool without repeats
   * it has no repeats.
   */
  lemma SelectionFromPool(pool: seq<Question>, shuffled: seq<Question>, n: nat)
    requires multiset(shuffled) == multiset(pool) && n <= |shuffled|
    ensures multiset(Select(shuffled, n)) <= multiset(pool)
    ensures NoDuplicates(pool) ==> NoDuplicates(Select(shuffled, n))
  {
    var r := Select(shuffled, n);
    if NoDuplicates(pool) {
      forall i, j | 0 <= i < j < |r| ensures r[i] != r[j] {
        if r[i] == r[j] {
          DuplicateCount(r, i, j);
          NoDuplicatesCount(pool, r[i]);
          assert false;
        }
      }
    }
  }

  /** How many of the recorded answers were correct. */
  function CorrectCount(answers: seq<bool>): (n: nat)
    ensures n <= |answers|
  {
    if answers == [] then 0
    else CorrectCount(answers[..|answers| - 1]) + (if answers[|answers| - 1] then 1 else 0)
  }

  /** Every answer was correct exactly when the count of correct answers is the number of answers. */
  lemma {:induction false} AllCorrect(answers: seq<bool>)
    ensures CorrectCount(answers) == |answers| <==> forall k :: 0 <= k < |answers| ==> answers[k]
  {
    if answers != [] {
      var init := answers[..|answers| - 1];
      AllCorrect(init);
      assert forall k :: 0 <= k < |init| ==> init[k] == answers[k];
    }
  }

  /**
   * The component's state.  `answered` is a ghost record of whether each
   * answer given in the current attempt was correct; the component keeps
   * only the score.
   */
  class QuizApp {
    const questions: seq<Question>
    var numQuestions: Option<int>
    var selectedQuestions: seq<Question>
    var currentIndex: int
    var score: int
    var showResult: bool
    var feedback: Option<Feedback>
    var isNextVisible: bool
    var leaderboard: seq<Entry>
    ghost var answered: seq<bool>
    ghost var boardWrites: nat

    /** What holds between any two handlers. */
    ghost predicate Valid()
      reads this
    {
      && multiset(selectedQuestions) <= multiset(questions)
      && isNextVisible == feedback.Some?
      && (selectedQuestions == [] ==>
            currentIndex == 0 && answered == [] && feedback.None? && !showResult)
      && (selectedQuestions != [] ==> 0 <= currentIndex < |selectedQuestions|)
      && (selectedQuestions != [] ==>
            numQuestions == Some(|selectedQuestions|) && |selectedQuestions| <= |questions|)
      && |answered| == currentIndex + (if feedback.Some? then 1 else 0)
      && score == CorrectCount(answered)
      && (showResult ==> feedback.Some? && currentIndex == |selectedQuestions| - 1)
    }

    /**
     * The screen rendered: the count form whenever no question is selected,
     * whatever `showResult` says; otherwise the result or the current question.
     */
    function CurrentPhase(): (p: Phase)
      reads this
      ensures p == Configure <==> selectedQuestions == []
      ensures p == Completed <==> selectedQuestions != [] && showResult
      ensures p == InProgress <==> selectedQuestions != [] && !showResult
    {
      if |selectedQuestions| == 0 then Configure
      else if showResult then Completed
      else InProgress
    }

    /**
     * What each screen may rely on: the count form shows a fresh session,
     * the question screen's `selectedQuestions[currentIndex]` exists, and
     * the result screen's score counts the correct answers of the attempt.
     */
    lemma ScreenInvariants()
      requires Valid()
      ensures CurrentPhase() == Configure ==> score == 0 && feedback == None && !isNextVisible
      ensures CurrentPhase() == InProgress ==>
        0 <= currentIndex < |selectedQuestions| && 0 <= score <= currentIndex + 1
      ensures CurrentPhase() == Completed ==>
        |answered| == |selectedQuestions| && score == CorrectCount(answered)
        && 0 <= score <= |selectedQuestions|
    {
    }

    /** The component's first render after the pool was fetched and the board read. */
    constructor (pool: seq<Question>, savedBoard: seq<Entry>)
      ensures Valid() && CurrentPhase() == Configure
      ensures questions == pool && leaderboard == savedBoard && numQuestions == None
      ensures selectedQuestions == [] && currentIndex == 0 && score == 0
      ensures !showResult && feedback == None && !isNextVisible
      ensures answered == [] && boardWrites == 0
    {
      questions := pool;
      numQuestions := None;
      selectedQuestions := [];
      currentIndex := 0;
      score := 0;
      showResult := false;
      feedback := None;
      isNextVisible := false;
      leaderboard := savedBoard;
      answered := [];
      boardWrites := 0;
    }

    /** The count field's change handler: stores the parsed count. */
    method SetNumQuestions(num: Option<int>)
      requires Valid() && CurrentPhase() == Configure
      modifies this`numQuestions
      ensures Valid() && numQuestions == num
    {
      numQuestions := num;
    }

    /**
     * `startQuiz`, both from the count form and as "restart" on the result
     * screen.  `shuffled` is the permutation of the pool that `shuffleArray`
     * returns; `started` is false when the alert is shown instead.  A restart
     * always succeeds: the count that started the attempt is still stored.
     */
    method StartQuiz(shuffled: seq<Question>) returns (started: bool)
      requires Valid()
      requires multiset(shuffled) == multiset(questions)
      modifies this`selectedQuestions, this`currentIndex, this`score, this`showResult
      modifies this`feedback, this`isNextVisible, this`answered
      ensures Valid()
      ensures started <==> CheckCount(old(numQuestions), |questions|).Some?
      ensures !started ==> unchanged(this)
      ensures old(CurrentPhase()) == Completed ==>
        started && |selectedQuestions| == old(|selectedQuestions|)
      ensures started ==>
        && numQuestions.Some? && 1 <= numQuestions.value <= |shuffled|
        && selectedQuestions == Select(shuffled, numQuestions.value)
        && currentIndex == 0 && score == 0 && answered == []
        && feedback == None && !showResult && !isNextVisible
        && CurrentPhase() == InProgress
    {
      var count := CheckCount(numQuestions, |questions|);
      if count.None? {
        return false;
      }
      assert |shuffled| == |multiset(shuffled)| == |multiset(questions)| == |questions|;
      assert multiset(Select(shuffled, count.value)) <= multiset(questions);
      selectedQuestions := Select(shuffled, count.value);
      currentIndex := 0;
      score := 0;
      showResult := false;
      feedback := None;
      isNextVisible := false;
      answered := [];
      started := true;
    }

    /**
     * `handleAnswer`, reachable only while the current question has no
     * feedback yet (the option buttons are disabled afterwards).
     */
    method HandleAnswer(answer: string)
      requires Valid() && CurrentPhase() == InProgress && feedback == None
      modifies this`score, this`feedback, this`isNextVisible, this`answered
      ensures Valid() && CurrentPhase() == InProgress
      ensures var q := selectedQuestions[currentIndex];
              var isCorrect := answer == q.correctAnswer;
              && score == old(score) + (if isCorrect then 1 else 0)
              && feedback == Some(Feedback(isCorrect, q.correctAnswer))
              && answered == old(answered) + [isCorrect]
      ensures isNextVisible
      ensures 0 <= score <= currentIndex + 1 && score <= |selectedQuestions|
    {
      var q := selectedQuestions[currentIndex];
      var isCorrect := answer == q.correctAnswer;
      if isCorrect {
        score := score + 1;
      }
      feedback := Some(Feedback(isCorrect, q.correctAnswer));
      isNextVisible := true;
      answered := answered + [isCorrect];
      assert answered[..|answered| - 1] == old(answered);
    }

    /**
     * `saveScore`: appends the player's entry, sorts the board in place by
     * descending score and keeps the first five; one write of the stored board.
     */
    method SaveScore(username: Option<string>)
      modifies this`leaderboard, this`boardWrites
      ensures leaderboard == Save(old(leaderboard), Entry(username, score))
      ensures SortedDesc(leaderboard) && |leaderboard| <= Capacity
      ensures boardWrites == old(boardWrites) + 1
    {
      var appended := leaderboard + [Entry(username, score)];
      var board := new Entry[|appended|](i requires 0 <= i < |appended| => appended[i]);
      assert board[..] == appended;
      SortByScoreDesc(board);
      leaderboard := TopFive(board[..]);
      SaveSortedSubset(old(leaderboard), Entry(username, score));
      boardWrites := boardWrites + 1;
    }

    /**
     * `goToNextQuestion`, reachable once the current question is answered
     * (the button is shown only then).  After the last question the score is
     * saved and the result screen is shown.
     */
    method GoToNextQuestion(username: Option<string>)
      requires Valid() && CurrentPhase() == InProgress && isNextVisible
      modifies this`currentIndex, this`feedback, this`isNextVisible, this`showResult
      modifies this`leaderboard, this`boardWrites
      ensures Valid()
      ensures score == old(score)
      ensures old(currentIndex) + 1 < |selectedQuestions| ==>
        && currentIndex == old(currentIndex) + 1
        && feedback == None && !isNextVisible
        && leaderboard == old(leaderboard) && boardWrites == old(boardWrites)
        && CurrentPhase() == InProgress
      ensures old(currentIndex) + 1 >= |selectedQuestions| ==>
        && currentIndex == old(currentIndex)
        && feedback == old(feedback) && isNextVisible
        && leaderboard == Save(old(leaderboard), Entry(username, score))
        && boardWrites == old(boardWrites) + 1
        && CurrentPhase() == Completed
    {
      var nextIndex := currentIndex + 1;
      if nextIndex < |selectedQuestions| {
        currentIndex := nextIndex;
        feedback := None;
        isNextVisible := false;
      } else {
        SaveScore(username);
        showResult := true;
      }
    }

    /** The message and background of the result screen. */
    function ResultScreen(): (r: (Message, Background))
      reads this
      requires Valid() && CurrentPhase() == Completed
      ensures r.0 == Celebratory <==> forall k :: 0 <= k < |answered| ==> answered[k]
      ensures r.1 == Green <==> r.0 == Celebratory
    {
      AllCorrect(answered);
      (ResultMessage(score, |selectedQuestions|), ResultBackground(score, |selectedQuestions|))
    }
  }

  /**
   * The worked session: of three questions the first and last are answered
   * correctly; the result is the encouraging message and an empty board
   * gains the player's entry.
   */
  lemma ExampleRun(name: Option<string>)
    ensures CorrectCount([true, false, true]) == 2
    ensures ResultMessage(CorrectCount([true, false, true]), 3) == Encouraging
    ensures Save([], Entry(name, 2)) == [Entry(name, 2)]
  {
  }
}
