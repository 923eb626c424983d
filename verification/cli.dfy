/**
 * The decision logic of the terminal front end: how `QuizCLI.get_answer`
 * reads one answer, and the `TimerManager` state machine with the clock
 * passed in as `now` (seconds).
 */
module Cli {
  import opened Wrappers
  import opened Input
  import Text

  /** What `get_answer` does with one console event. */
  datatype Decision = Skip | Choose(answer: string) | Reprompt | Abort

  /**
   * One pass of the `get_answer` loop: Ctrl-C aborts; a blank line skips when
   * skipping is allowed and re-prompts otherwise; a number `n` from 1 to the
   * option count chooses option `n`; anything else re-prompts.
   */
  function Decide(options: seq<string>, allowSkip: bool, e: Event): (d: Decision)
    ensures d.Abort? <==> e == Interrupt
    ensures d.Skip? <==> e.Line? && allowSkip && Text.Strip(e.text) == ""
    ensures e.Line? && !allowSkip && Text.Strip(e.text) == "" ==> d.Reprompt?
    ensures d.Choose? <==> && e.Line?
                           && var n := Text.ParseInt(Text.Strip(e.text));
                           n.Some? && 1 <= n.value <= |options|
    ensures d.Choose? ==> var n := Text.ParseInt(Text.Strip(e.text)).value;
                          1 <= n <= |options| && d.answer == options[n - 1]
  {
    match e
    case Interrupt => Abort
    case Line(s) =>
      var t := Text.Strip(s);
      if t == "" then
        if allowSkip then Skip else Reprompt
      else
        match ReadChoice(t, |options|)
        case Chosen(i) => Choose(options[i])
        case _ => Reprompt
  }

  /**
   * `get_answer`: re-prompts until an event decides; returns the chosen
   * option, or `None` for a skip, Ctrl-C, or the end of input (`EOFError`).
   */
  function GetAnswer(options: seq<string>, allowSkip: bool, events: seq<Event>): (r: Option<string>)
    ensures r.Some? ==> r.value in options
    decreases |events|
  {
    if |events| == 0 then None
    else match Decide(options, allowSkip, events[0])
      case Skip => None
      case Abort => None
      case Choose(a) => Some(a)
      case Reprompt => GetAnswer(options, allowSkip, events[1..])
  }

  /**
   * Re-prompted events are consumed without effect, and the first event that
   * decides fixes the answer: its option for a choice, `None` otherwise.
   */
  lemma {:induction false} GetAnswerFirstDecision(options: seq<string>, allowSkip: bool, events: seq<Event>, k: nat)
    requires k <= |events|
    requires forall j :: 0 <= j < k ==> Decide(options, allowSkip, events[j]).Reprompt?
    ensures GetAnswer(options, allowSkip, events) == GetAnswer(options, allowSkip, events[k..])
    ensures k == |events| ==> GetAnswer(options, allowSkip, events) == None
    ensures k < |events| && !Decide(options, allowSkip, events[k]).Reprompt? ==>
              var d := Decide(options, allowSkip, events[k]);
              GetAnswer(options, allowSkip, events) == (if d.Choose? then Some(d.answer) else None)
    decreases k
  {
    if k > 0 {
      var tail := events[1..];
      assert GetAnswer(options, allowSkip, events) == GetAnswer(options, allowSkip, tail);
      forall j | 0 <= j < k - 1 ensures Decide(options, allowSkip, tail[j]).Reprompt? {
        assert tail[j] == events[j + 1];
      }
      GetAnswerFirstDecision(options, allowSkip, tail, k - 1);
      assert tail[k - 1..] == events[k..];
    }
  }

  /** Typing the printed number of an option returns that option, whatever input follows. */
  lemma GetAnswerOptionLine(options: seq<string>, allowSkip: bool, i: nat, rest: seq<Event>)
    requires i < |options|
    ensures GetAnswer(options, allowSkip, [Line(OptionLine(i))] + rest) == Some(options[i])
  {
    var events := [Line(OptionLine(i))] + rest;
    ReadOptionLine(i, |options|);
    assert Text.Strip(OptionLine(i)) != "";
    assert Decide(options, allowSkip, events[0]) == Choose(options[i]);
  }

  /** A timer: when it was started and its optional limit, both in seconds. */
  datatype Clock = Clock(start: Option<real>, limit: Option<real>)

  /** Time since the timer started at `now`; a timer never started reads 0. */
  function Elapsed(c: Clock, now: real): (e: real)
    ensures c.start.None? ==> e == 0.0
    ensures c.start.Some? ==> c.start.value + e == now
  {
    match c.start
    case None => 0.0
    case Some(s) => now - s
  }

  /** Whether the limit has been reached at `now`; without a limit, never. */
  predicate TimedOut(c: Clock, now: real)
    ensures TimedOut(c, now) ==> c.limit.Some?
    ensures c.start.None? && c.limit.Some? ==> (TimedOut(c, now) <==> c.limit.value <= 0.0)
    ensures c.start.Some? && c.limit.Some? ==> (TimedOut(c, now) <==> now >= c.start.value + c.limit.value)
  {
    c.limit.Some? && Elapsed(c, now) >= c.limit.value
  }

  /**
   * Time left at `now`: `None` without a limit; otherwise the limit minus the
   * elapsed time, floored at 0, and 0 exactly when the timer has run out.
   */
  function Remaining(c: Clock, now: real): (r: Option<real>)
    ensures r.None? <==> c.limit.None?
    ensures r.Some? ==> 0.0 <= r.value
    ensures r.Some? ==> (r.value == 0.0 <==> TimedOut(c, now))
    ensures r.Some? && !TimedOut(c, now) ==> r.value + Elapsed(c, now) == c.limit.value
    ensures r.Some? && 0.0 <= Elapsed(c, now) && 0.0 <= c.limit.value ==> r.value <= c.limit.value
  {
    match c.limit
    case None => None
    case Some(l) =>
      var left := l - Elapsed(c, now);
      Some(if left > 0.0 then left else 0.0)
  }

  /** A running timer that has run out stays run out as time moves on. */
  lemma TimedOutStays(c: Clock, now: real, later: real)
    requires c.start.Some? && now <= later
    requires TimedOut(c, now)
    ensures TimedOut(c, later)
    ensures Remaining(c, later) == Some(0.0)
  {
  }

  /** The timer state of `TimerManager`: one timer for the current question, one for the whole quiz. */
  datatype TimerManager = TimerManager(question: Clock, quiz: Clock)

  /** A limit is only ever set together with a start time. */
  predicate Consistent(t: TimerManager) {
    && (t.question.limit.Some? ==> t.question.start.Some?)
    && (t.quiz.limit.Some? ==> t.quiz.start.Some?)
  }

  /** A new manager has neither timer started nor any limit. */
  function NewTimerManager(): (t: TimerManager)
    ensures t.question.start.None? && t.quiz.start.None?
    ensures t.question.limit.None? && t.quiz.limit.None?
    ensures Consistent(t)
    ensures forall now :: Elapsed(t.question, now) == 0.0 && Elapsed(t.quiz, now) == 0.0
  {
    TimerManager(Clock(None, None), Clock(None, None))
  }

  /** `start_quiz`: the quiz timer restarts at `now` with the given limit; the question timer is untouched. */
  function StartQuiz(t: TimerManager, now: real, limit: Option<real>): (r: TimerManager)
    ensures r.question == t.question
    ensures r.quiz.limit == limit
    ensures forall later :: Elapsed(r.quiz, later) == later - now
    ensures Consistent(t) ==> Consistent(r)
  {
    t.(quiz := Clock(Some(now), limit))
  }

  /** `start_question`: the question timer restarts at `now` with the given limit; the quiz timer is untouched. */
  function StartQuestion(t: TimerManager, now: real, limit: Option<real>): (r: TimerManager)
    ensures r.quiz == t.quiz
    ensures r.question.limit == limit
    ensures forall later :: Elapsed(r.question, later) == later - now
    ensures Consistent(t) ==> Consistent(r)
  {
    t.(question := Clock(Some(now), limit))
  }

  /**
   * Right after a start with a limit of `l`, the full `l` remains and the
   * timer has run out only if `l <= 0`; a start without a limit never runs out.
   */
  lemma StartQuestionFresh(t: TimerManager, now: real, limit: Option<real>)
    ensures var r := StartQuestion(t, now, limit);
            && Elapsed(r.question, now) == 0.0
            && (limit.None? ==> forall later :: !TimedOut(r.question, later) && Remaining(r.question, later).None?)
            && (limit.Some? && limit.value > 0.0 ==> !TimedOut(r.question, now) && Remaining(r.question, now) == Some(limit.value))
            && (limit.Some? && limit.value <= 0.0 ==> TimedOut(r.question, now))
  {
  }
}
