/**
 * The quiz core: a `Question` record with its construction check, a `Quiz`
 * that owns a list of questions and a score, and the scoring loop of
 * `Quiz.start` with console input given as a sequence of events.
 */
module Core {
  import opened Wrappers
  import opened Input
  import Text

  /** The exceptions the core raises. */
  datatype Error = ValueError(message: string) | TypeError(message: string)

  /** A multiple-choice question: text, the options, the correct answer and an optional explanation. */
  datatype Question = Question(text: string, options: seq<string>, correctAnswer: string, explanation: Option<string>) {

    /** The construction invariant: the correct answer is one of the options. */
    predicate Valid() {
      correctAnswer in options
    }

    /** `check_answer`: an answer is right when it is the correct answer itself. */
    function CheckAnswer(answer: string): (accepted: bool)
      ensures accepted ==> answer == correctAnswer
      ensures accepted && Valid() ==> answer in options
      ensures answer == correctAnswer ==> accepted
    {
      answer == correctAnswer
    }
  }

  /** `Question(...)`: construction fails unless the correct answer is one of the options. */
  function NewQuestion(text: string, options: seq<string>, correctAnswer: string, explanation: Option<string>): (r: Result<Question, Error>)
    ensures r.Ok? <==> correctAnswer in options
    ensures r.Ok? ==> r.value.Valid()
    ensures r.Ok? ==> r.value.text == text && r.value.options == options
                      && r.value.correctAnswer == correctAnswer && r.value.explanation == explanation
    ensures r.Err? ==> r.error == ValueError("Correct answer must be one of the options")
  {
    if correctAnswer !in options then Err(ValueError("Correct answer must be one of the options"))
    else Ok(Question(text, options, correctAnswer, explanation))
  }

  /**
   * On a constructed question exactly the options equal to the correct answer
   * are accepted, and at least one option is: so there is at least one option.
   */
  lemma CheckAnswerOnOptions(q: Question)
    requires q.Valid()
    ensures q.CheckAnswer(q.correctAnswer)
    ensures forall a :: q.CheckAnswer(a) <==> a == q.correctAnswer
    ensures |q.options| >= 1
    ensures exists i :: 0 <= i < |q.options| && q.CheckAnswer(q.options[i])
  {
  }

  /** A quiz: title, the questions in order, and the counters the last run left behind. */
  datatype Quiz = Quiz(title: string, questions: seq<Question>, score: nat, total: nat) {

    /** What every reachable quiz satisfies: constructed questions, and a score within the total. */
    predicate Valid() {
      && (forall i :: 0 <= i < |questions| ==> questions[i].Valid())
      && score <= total
    }
  }

  /** `Quiz(title, questions)`: a missing or empty list becomes an empty list; both counters start at zero. */
  function NewQuiz(title: string, questions: Option<seq<Question>>): (q: Quiz)
    ensures q.title == title && q.score == 0 && q.total == 0
    ensures questions.None? ==> q.questions == []
    ensures questions.Some? ==> q.questions == questions.value
    ensures q.Valid() <==> forall i :: 0 <= i < |q.questions| ==> q.questions[i].Valid()
  {
    Quiz(title, questions.GetOr([]), 0, 0)
  }

  /** A value handed to `add_question`, which may or may not be a `Question`. */
  datatype Item = QuestionItem(question: Question) | OtherItem(typeName: string)

  /** `get_questions`: the question list. */
  function GetQuestions(quiz: Quiz): (qs: seq<Question>)
    ensures qs == quiz.questions
    ensures quiz.Valid() ==> forall i :: 0 <= i < |qs| ==> qs[i].correctAnswer in qs[i].options
  {
    quiz.questions
  }

  /**
   * `add_question`: anything other than a question raises `TypeError`;
   * a question is appended and nothing else changes.
   */
  function AddQuestion(quiz: Quiz, item: Item): (r: Result<Quiz, Error>)
    ensures r.Err? <==> item.OtherItem?
    ensures r.Err? ==> r.error == TypeError("Must be a Question instance")
    ensures r.Ok? ==> && |GetQuestions(r.value)| == |GetQuestions(quiz)| + 1
                      && GetQuestions(r.value)[|GetQuestions(quiz)|] == item.question
                      && GetQuestions(r.value)[..|GetQuestions(quiz)|] == GetQuestions(quiz)
    ensures r.Ok? ==> r.value.title == quiz.title && r.value.score == quiz.score && r.value.total == quiz.total
    ensures r.Ok? && quiz.Valid() && item.question.Valid() ==> r.value.Valid()
  {
    match item
    case OtherItem(_) => Err(TypeError("Must be a Question instance"))
    case QuestionItem(q) => Ok(quiz.(questions := quiz.questions + [q]))
  }

  /** `clear`: no questions left and both counters back to zero; the title stays. */
  function Clear(quiz: Quiz): (r: Quiz)
    ensures r.title == quiz.title
    ensures GetQuestions(r) == [] && r.score == 0 && r.total == 0
    ensures r.Valid()
  {
    Quiz(quiz.title, [], 0, 0)
  }

  /** How the answer loop of `start` takes one console event. */
  datatype Reply = Accept(index: nat) | Reprompt | Stop

  /**
   * One pass of the `while True` loop of `start` for a question with `count`
   * options: a stripped line that reads as a number from 1 to `count` selects
   * that option; any other line is re-prompted (out of range, or the
   * `ValueError` of `int()`); Ctrl-C stops the quiz.
   */
  function ReplyTo(e: Event, count: nat): (r: Reply)
    ensures r.Accept? ==> r.index < count
    ensures r.Stop? <==> e.Interrupt?
    ensures r.Accept? <==> e.Line? && ReadChoice(Text.Strip(e.text), count).Chosen?
    ensures r.Accept? ==> Text.ParseInt(Text.Strip(e.text)) == Some(r.index + 1)
  {
    match e
    case Interrupt => Stop
    case Line(s) =>
      match ReadChoice(Text.Strip(s), count)
      case Chosen(i) => Accept(i)
      case _ => Reprompt
  }

  /** The replies to a sequence of events, one per event. */
  function Replies(events: seq<Event>, count: nat): (rs: seq<Reply>)
    ensures |rs| == |events|
  {
    if |events| == 0 then []
    else Replies(events[..|events| - 1], count) + [ReplyTo(events[|events| - 1], count)]
  }

  /** The reply at position `j` is the reply to the event at `j`. */
  lemma {:induction false} RepliesAt(events: seq<Event>, count: nat, j: nat)
    requires j < |events|
    ensures Replies(events, count)[j] == ReplyTo(events[j], count)
    decreases |events|
  {
    var n := |events| - 1;
    if j < n {
      RepliesAt(events[..n], count, j);
    }
  }

  /** Every accepted reply names one of `count` options. */
  predicate AcceptsBelow(rs: seq<Reply>, count: nat) {
    forall j :: 0 <= j < |rs| && rs[j].Accept? ==> rs[j].index < count
  }

  /** `Replies` only accepts indices of existing options. */
  lemma RepliesAcceptBelow(events: seq<Event>, count: nat)
    ensures AcceptsBelow(Replies(events, count), count)
  {
  }

  /** The outcome of reading one answer: the 0-based index and the position of the first unread event, or the reading stopped. */
  datatype Pick = Picked(index: nat, next: nat) | Quit

  /**
   * The `while True` loop of `start`, reading replies from position `at`:
   * re-prompted lines are skipped, the first accepted line selects its option,
   * Ctrl-C or the end of input (`EOFError`) stops the quiz.
   */
  function ReadPick(rs: seq<Reply>, at: nat): (p: Pick)
    requires at <= |rs|
    ensures p.Picked? ==> at < p.next <= |rs|
    decreases |rs| - at
  {
    if at == |rs| then Quit
    else match rs[at]
      case Stop => Quit
      case Accept(i) => Picked(i, at + 1)
      case Reprompt => ReadPick(rs, at + 1)
  }

  /** `ReadPick` selects the option of the first accepted reply, and every reply before it was a re-prompt. */
  lemma {:induction false} ReadPickFirstAccepted(rs: seq<Reply>, at: nat)
    requires at <= |rs| && ReadPick(rs, at).Picked?
    ensures var p := ReadPick(rs, at);
            && rs[p.next - 1] == Accept(p.index)
            && forall j :: at <= j < p.next - 1 ==> rs[j] == Reprompt
    decreases |rs| - at
  {
    if rs[at] == Reprompt {
      ReadPickFirstAccepted(rs, at + 1);
    }
  }

  /**
   * Re-prompts are consumed without effect: after the ones from `at` up to
   * `k`, reading continues as if it started at `k`. With `k` at the end of
   * input or at Ctrl-C this is `Quit`; at an accepted line, its option.
   */
  lemma {:induction false} ReadPickSkipsReprompts(rs: seq<Reply>, at: nat, k: nat)
    requires at <= k <= |rs|
    requires forall j :: at <= j < k ==> rs[j] == Reprompt
    ensures ReadPick(rs, at) == ReadPick(rs, k)
    ensures k == |rs| ==> ReadPick(rs, at) == Quit
    ensures k < |rs| && rs[k] == Stop ==> ReadPick(rs, at) == Quit
    ensures k < |rs| && rs[k].Accept? ==> ReadPick(rs, at) == Picked(rs[k].index, k + 1)
    decreases k - at
  {
    if at < k {
      ReadPickSkipsReprompts(rs, at + 1, k);
    }
  }

  /** The answers a run collected, as 0-based option indices, and whether it reached the last question. */
  datatype Run = Run(picks: seq<nat>, finished: bool)

  /** Every pick names an option of its question, and there is at most one pick per question. */
  predicate PicksFit(questions: seq<Question>, picks: seq<nat>) {
    && |picks| <= |questions|
    && forall i :: 0 <= i < |picks| ==> picks[i] < |questions[i].options|
  }

  /** The question loop of `start`: one answer per question, in order, until the input stops. */
  function Play(questions: seq<Question>, events: seq<Event>): (run: Run)
    ensures PicksFit(questions, run.picks)
    ensures run.finished <==> |run.picks| == |questions|
    decreases |questions|
  {
    if |questions| == 0 then Run([], true)
    else
      var count := |questions[0].options|;
      var rs := Replies(events, count);
      RepliesAcceptBelow(events, count);
      match ReadPick(rs, 0)
      case Quit => Run([], false)
      case Picked(i, next) =>
        ReadPickFirstAccepted(rs, 0);
        var tail := Play(questions[1..], events[next..]);
        Run([i] + tail.picks, tail.finished)
  }

  /**
   * The answer loop at the level of console events: after lines that are
   * re-prompted, the end of input or Ctrl-C stops the quiz, and a line naming
   * an option picks it and moves on to the next question with the rest of
   * the input.
   */
  lemma PlayFirstDecision(questions: seq<Question>, events: seq<Event>, k: nat)
    requires |questions| > 0 && k <= |events|
    requires forall j :: 0 <= j < k ==> ReplyTo(events[j], |questions[0].options|) == Reprompt
    ensures k == |events| ==> Play(questions, events) == Run([], false)
    ensures k < |events| && events[k].Interrupt? ==> Play(questions, events) == Run([], false)
    ensures k < |events| && ReplyTo(events[k], |questions[0].options|).Accept? ==>
              var tail := Play(questions[1..], events[k + 1..]);
              Play(questions, events) == Run([ReplyTo(events[k], |questions[0].options|).index] + tail.picks, tail.finished)
  {
    var count := |questions[0].options|;
    var rs := Replies(events, count);
    forall j | 0 <= j < k ensures rs[j] == Reprompt {
      RepliesAt(events, count, j);
    }
    if k < |events| {
      RepliesAt(events, count, k);
    }
    ReadPickSkipsReprompts(rs, 0, k);
  }

  /** The chosen option of question `i` is its correct answer. */
  predicate PickedCorrectly(questions: seq<Question>, picks: seq<nat>, i: nat)
    requires PicksFit(questions, picks) && i < |picks|
  {
    questions[i].CheckAnswer(questions[i].options[picks[i]])
  }

  /** The score `start` accumulates over the answered questions, one point per correct pick. */
  function Score(questions: seq<Question>, picks: seq<nat>): nat
    requires PicksFit(questions, picks)
  {
    if |picks| == 0 then 0
    else
      var before := picks[..|picks| - 1];
      Score(questions, before) + (if PickedCorrectly(questions, picks, |picks| - 1) then 1 else 0)
  }

  /** The positions whose pick is correct. */
  ghost function CorrectPositions(questions: seq<Question>, picks: seq<nat>): set<nat>
    requires PicksFit(questions, picks)
  {
    set i: nat | i < |picks| && PickedCorrectly(questions, picks, i)
  }

  /** The score is the number of questions answered with their correct answer, so it never exceeds the answers. */
  lemma {:induction false} ScoreCountsCorrectPicks(questions: seq<Question>, picks: seq<nat>)
    requires PicksFit(questions, picks)
    ensures Score(questions, picks) == |CorrectPositions(questions, picks)|
    ensures Score(questions, picks) <= |picks|
    decreases |picks|
  {
    if |picks| > 0 {
      var n := |picks| - 1;
      var before := picks[..n];
      ScoreCountsCorrectPicks(questions, before);
      var prev := CorrectPositions(questions, before);
      var all := CorrectPositions(questions, picks);
      assert forall i :: 0 <= i < n ==> PickedCorrectly(questions, before, i) == PickedCorrectly(questions, picks, i);
      if PickedCorrectly(questions, picks, n) {
        assert all == prev + {n};
      } else {
        assert all == prev;
      }
    }
  }

  /** What `start` ends with: nothing to ask, a run cut short, or a finished run with its percentage. */
  datatype Report = NoQuestions | Interrupted | Finished(percent: real)

  /**
   * `start`: an empty quiz returns before touching the counters; otherwise the
   * counters are reset, each question is answered in turn, and a finished run
   * reports `score / total * 100`.
   */
  function Start(quiz: Quiz, events: seq<Event>): (r: (Quiz, Report))
    ensures r.0.title == quiz.title && r.0.questions == quiz.questions
    ensures r.1.NoQuestions? <==> |quiz.questions| == 0
    ensures r.1.NoQuestions? ==> r.0 == quiz
    ensures !r.1.NoQuestions? ==> r.0.total == |quiz.questions| && r.0.score <= r.0.total
    ensures !r.1.NoQuestions? ==> var run := Play(quiz.questions, events);
                                  && (r.1.Finished? <==> run.finished)
                                  && r.0.score == |CorrectPositions(quiz.questions, run.picks)|
    ensures r.1.Finished? ==> 0.0 <= r.1.percent <= 100.0
    ensures r.1.Finished? ==> (r.1.percent == 100.0 <==> r.0.score == r.0.total)
    ensures r.1.Finished? ==> PercentOf(r.1.percent, r.0.score, r.0.total)
    ensures quiz.Valid() ==> r.0.Valid()
  {
    if |quiz.questions| == 0 then (quiz, NoQuestions)
    else
      var run := Play(quiz.questions, events);
      var score := Score(quiz.questions, run.picks);
      ScoreCountsCorrectPicks(quiz.questions, run.picks);
      var after := quiz.(score := score, total := |quiz.questions|);
      if run.finished then
        (after, Finished(Percent(score, |quiz.questions|)))
      else
        (after, Interrupted)
  }

  /** `p` percent of `total` is `score`: the percentage, stated without division. */
  predicate PercentOf(p: real, score: nat, total: nat) {
    p * (total as real) == (score as real) * 100.0
  }

  /** `score / total * 100`, only ever computed for a non-empty quiz. */
  function Percent(score: nat, total: nat): (p: real)
    requires 0 < total && score <= total
    ensures PercentOf(p, score, total)
    ensures 0.0 <= p <= 100.0
    ensures p == 100.0 <==> score == total
  {
    var s, t := score as real, total as real;
    var q := s / t;
    assert q * t == s;
    assert q <= 1.0;
    assert score < total ==> q < 1.0;
    var p := q * 100.0;
    assert p * t == (q * t) * 100.0;
    p
  }

  /** The console lines that type in the given 0-based picks, one per question. */
  function AnswerLines(picks: seq<nat>): seq<Event> {
    if |picks| == 0 then [] else [Line(OptionLine(picks[0]))] + AnswerLines(picks[1..])
  }

  /** Typing the printed number of one option per question runs the quiz to the end with exactly those picks. */
  lemma {:induction false} PlayAnswerLines(questions: seq<Question>, picks: seq<nat>)
    requires |picks| == |questions| && PicksFit(questions, picks)
    ensures Play(questions, AnswerLines(picks)) == Run(picks, true)
    decreases |picks|
  {
    if |picks| > 0 {
      var events := AnswerLines(picks);
      var count := |questions[0].options|;
      assert events == [Line(OptionLine(picks[0]))] + AnswerLines(picks[1..]);
      ReadOptionLine(picks[0], count);
      RepliesAt(events, count, 0);
      ReadPickSkipsReprompts(Replies(events, count), 0, 0);
      assert events[1..] == AnswerLines(picks[1..]);
      PlayAnswerLines(questions[1..], picks[1..]);
      assert [picks[0]] + picks[1..] == picks;
    }
  }

  /** After `clear`, `start` finds no questions and changes nothing. */
  lemma ClearThenStart(quiz: Quiz, events: seq<Event>)
    ensures Start(Clear(quiz), events) == (Clear(quiz), NoQuestions)
  {
  }
}
