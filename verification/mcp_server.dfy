/**
 * The pure computations behind two tools of the quiz MCP server: the quality
 * check of `validate_question` and the type counting of `analyze_difficulty`.
 * Arguments arrive already decoded from JSON; a missing argument is `None`.
 */
module McpServer {
  import opened Wrappers
  import Text
  import Core

  /** A problem `validate_question` reports. */
  datatype Issue = TextTooShort | TooFewOptions | MissingCorrectAnswer | AnswerNotInOptions | NotTrueOrFalse | TooFewPairs

  /** The text the tool reports for each issue. */
  function Message(issue: Issue): string {
    match issue
    case TextTooShort => "Question text too short (minimum 10 characters)"
    case TooFewOptions => "Need at least 2 options"
    case MissingCorrectAnswer => "Correct answer required"
    case AnswerNotInOptions => "Correct answer must be in options"
    case NotTrueOrFalse => "Answer must be True or False"
    case TooFewPairs => "Need at least 2 pairs"
  }

  /** The messages tell the issues apart, so the reported list of strings determines the issues found. */
  lemma MessagesTellIssuesApart(a: Issue, b: Issue)
    ensures Message(a) == Message(b) <==> a == b
  {
  }

  /** The tool's answer: whether the question passes, the issues found, and a 0-100 quality score. */
  datatype Validation = Validation(valid: bool, issues: seq<Issue>, score: int)

  /**
   * The `TypeError` of `correct_answer not in options` when a multiple-choice
   * question comes with a correct answer but no options list at all.
   */
  datatype ValidationError = OptionsNotIterable

  /** Python truthiness of an optional string: missing and empty are both false. */
  predicate Present(s: Option<string>) {
    s.Some? && s.value != ""
  }

  /** The position of an issue in the order in which `validate_question` checks for it. */
  function Rank(issue: Issue): nat {
    match issue
    case TextTooShort => 0
    case TooFewOptions => 1
    case MissingCorrectAnswer => 2
    case AnswerNotInOptions => 3
    case NotTrueOrFalse => 4
    case TooFewPairs => 5
  }

  /** The issues are listed in the order the tool appends them. */
  predicate InOrder(issues: seq<Issue>) {
    forall i, j :: 0 <= i < j < |issues| ==> Rank(issues[i]) < Rank(issues[j])
  }

  /** No issue is listed twice. */
  predicate NoRepeats(issues: seq<Issue>) {
    forall i, j :: 0 <= i < j < |issues| ==> issues[i] != issues[j]
  }

  /** A list in the tool's order repeats no issue. */
  lemma InOrderNoRepeats(issues: seq<Issue>)
    requires InOrder(issues)
    ensures NoRepeats(issues)
  {
  }

  /** The spellings a true/false answer must have. */
  const TrueFalseAnswers: seq<string> := ["True", "False", "true", "false"]

  /** The issue with the question text: missing, or under 10 characters once stripped. */
  function TextIssues(questionText: Option<string>): (issues: seq<Issue>)
    ensures |issues| <= 1
    ensures forall x :: x in issues ==> x == TextTooShort
    ensures TextTooShort in issues <==> questionText.None? || |Text.Strip(questionText.value)| < 10
  {
    if questionText.None? || |Text.Strip(questionText.value)| < 10 then [TextTooShort] else []
  }

  /** The issues particular to the question type; other types have none. */
  function TypeIssues(questionType: string, options: Option<seq<string>>, correctAnswer: Option<string>,
                      pairs: Option<map<string, string>>): (r: Result<seq<Issue>, ValidationError>)
    ensures r.Err? <==> questionType == "MULTIPLE_CHOICE" && options.None? && Present(correctAnswer)
    ensures r.Ok? ==> |r.value| <= 2 && TextTooShort !in r.value && NoRepeats(r.value)
    ensures r.Ok? ==> InOrder(r.value)
    ensures r.Ok? ==> (TooFewOptions in r.value <==>
                        questionType == "MULTIPLE_CHOICE" && (options.None? || |options.value| < 2))
    ensures r.Ok? ==> (MissingCorrectAnswer in r.value <==>
                        questionType == "MULTIPLE_CHOICE" && !Present(correctAnswer))
    ensures r.Ok? ==> (AnswerNotInOptions in r.value <==>
                        && questionType == "MULTIPLE_CHOICE" && Present(correctAnswer)
                        && options.Some? && correctAnswer.value !in options.value)
    ensures r.Ok? ==> (NotTrueOrFalse in r.value <==>
                        questionType == "TRUE_FALSE" && (correctAnswer.None? || correctAnswer.value !in TrueFalseAnswers))
    ensures r.Ok? ==> (TooFewPairs in r.value <==>
                        questionType == "MATCHING" && (pairs.None? || |pairs.value| < 2))
  {
    if questionType == "MULTIPLE_CHOICE" then
      var tooFew := options.None? || |options.value| < 2;
      if !Present(correctAnswer) then
        Ok(if tooFew then [TooFewOptions, MissingCorrectAnswer] else [MissingCorrectAnswer])
      else if options.None? then Err(OptionsNotIterable)
      else if correctAnswer.value !in options.value then
        Ok(if tooFew then [TooFewOptions, AnswerNotInOptions] else [AnswerNotInOptions])
      else Ok(if tooFew then [TooFewOptions] else [])
    else if questionType == "TRUE_FALSE" then
      Ok(if correctAnswer.None? || correctAnswer.value !in TrueFalseAnswers then [NotTrueOrFalse] else [])
    else if questionType == "MATCHING" then
      Ok(if pairs.None? || |pairs.value| < 2 then [TooFewPairs] else [])
    else Ok([])
  }

  /**
   * `validate_question`: collects the issues; the question is valid exactly
   * when there are none, and scores `max(0, 100 - 20 * issues)`. At most
   * three issues can arise, so the score never drops below 40.
   */
  function ValidateQuestion(questionText: Option<string>, questionType: string, options: Option<seq<string>>,
                            correctAnswer: Option<string>, pairs: Option<map<string, string>>): (r: Result<Validation, ValidationError>)
    ensures r.Err? <==> questionType == "MULTIPLE_CHOICE" && options.None? && Present(correctAnswer)
    ensures r.Ok? ==> (r.value.valid <==> |r.value.issues| == 0)
    ensures r.Ok? ==> NoRepeats(r.value.issues)
    ensures r.Ok? ==> InOrder(r.value.issues)
    ensures r.Ok? && TextTooShort in r.value.issues ==> r.value.issues[0] == TextTooShort
    ensures r.Ok? ==> r.value.score == (if 100 - 20 * |r.value.issues| > 0 then 100 - 20 * |r.value.issues| else 0)
    ensures r.Ok? ==> 40 <= r.value.score <= 100 && (r.value.score == 100 <==> r.value.valid)
    ensures r.Ok? ==> (TextTooShort in r.value.issues <==> questionText.None? || |Text.Strip(questionText.value)| < 10)
    ensures r.Ok? ==> (TooFewOptions in r.value.issues <==>
                        questionType == "MULTIPLE_CHOICE" && (options.None? || |options.value| < 2))
    ensures r.Ok? ==> (MissingCorrectAnswer in r.value.issues <==>
                        questionType == "MULTIPLE_CHOICE" && !Present(correctAnswer))
    ensures r.Ok? ==> (AnswerNotInOptions in r.value.issues <==>
                        && questionType == "MULTIPLE_CHOICE" && Present(correctAnswer)
                        && options.Some? && correctAnswer.value !in options.value)
    ensures r.Ok? ==> (NotTrueOrFalse in r.value.issues <==>
                        questionType == "TRUE_FALSE" && (correctAnswer.None? || correctAnswer.value !in TrueFalseAnswers))
    ensures r.Ok? ==> (TooFewPairs in r.value.issues <==>
                        questionType == "MATCHING" && (pairs.None? || |pairs.value| < 2))
  {
    match TypeIssues(questionType, options, correctAnswer, pairs)
    case Err(e) => Err(e)
    case Ok(typeIssues) =>
      var issues := TextIssues(questionText) + typeIssues;
      assert InOrder(issues) by {
        forall i, j | 0 <= i < j < |issues| ensures Rank(issues[i]) < Rank(issues[j]) {
          if i < |TextIssues(questionText)| {
            assert issues[j] == typeIssues[j - |TextIssues(questionText)|];
          } else {
            assert issues[i] == typeIssues[i - |TextIssues(questionText)|];
          }
        }
      }
      InOrderNoRepeats(issues);
      var score := if 100 - |issues| * 20 > 0 then 100 - |issues| * 20 else 0;
      Ok(Validation(|issues| == 0, issues, score))
  }

  /**
   * A multiple-choice question sent with a correct answer but without an
   * options list makes the tool fail instead of reporting its issues.
   */
  lemma MissingOptionsFails()
    ensures ValidateQuestion(Some("What is 2 + 2?"), "MULTIPLE_CHOICE", None, Some("4"), None)
            == Err(OptionsNotIterable)
  {
  }

  /** Every issue kind that can occur, so a list without any of them is empty. */
  lemma NoIssueKindMeansNoIssues(issues: seq<Issue>)
    requires TextTooShort !in issues && TooFewOptions !in issues && MissingCorrectAnswer !in issues
    requires AnswerNotInOptions !in issues && NotTrueOrFalse !in issues && TooFewPairs !in issues
    ensures issues == []
  {
    if |issues| > 0 {
      var first := issues[0];
      assert first in issues;
      match first
      case TextTooShort =>
      case TooFewOptions =>
      case MissingCorrectAnswer =>
      case AnswerNotInOptions =>
      case NotTrueOrFalse =>
      case TooFewPairs =>
    }
  }

  /** When the tool answers, the question is valid exactly when none of the six issue conditions holds. */
  lemma ValidExactlyWithoutIssueConditions(questionText: Option<string>, questionType: string, options: Option<seq<string>>,
                                           correctAnswer: Option<string>, pairs: Option<map<string, string>>)
    requires ValidateQuestion(questionText, questionType, options, correctAnswer, pairs).Ok?
    ensures ValidateQuestion(questionText, questionType, options, correctAnswer, pairs).value.valid <==>
              && !(questionText.None? || |Text.Strip(questionText.value)| < 10)
              && !(questionType == "MULTIPLE_CHOICE" && (options.None? || |options.value| < 2))
              && !(questionType == "MULTIPLE_CHOICE" && !Present(correctAnswer))
              && !(questionType == "MULTIPLE_CHOICE" && options.Some? && correctAnswer.value !in options.value)
              && !(questionType == "TRUE_FALSE" && (correctAnswer.None? || correctAnswer.value !in TrueFalseAnswers))
              && !(questionType == "MATCHING" && (pairs.None? || |pairs.value| < 2))
  {
    var v := ValidateQuestion(questionText, questionType, options, correctAnswer, pairs).value;
    if TextTooShort !in v.issues && TooFewOptions !in v.issues && MissingCorrectAnswer !in v.issues
       && AnswerNotInOptions !in v.issues && NotTrueOrFalse !in v.issues && TooFewPairs !in v.issues {
      NoIssueKindMeansNoIssues(v.issues);
    }
  }

  /**
   * `validate_question` with a missing options list read as an empty one, as
   * the `not options` test already does: the check always answers, and
   * wherever the tool does answer, it agrees with it.
   */
  function ValidateQuestionCorrected(questionText: Option<string>, questionType: string, options: Option<seq<string>>,
                                     correctAnswer: Option<string>, pairs: Option<map<string, string>>): (v: Validation)
    ensures ValidateQuestion(questionText, questionType, options, correctAnswer, pairs).Ok? ==>
              ValidateQuestion(questionText, questionType, options, correctAnswer, pairs) == Ok(v)
    ensures v.valid <==> |v.issues| == 0
    ensures NoRepeats(v.issues)
    ensures InOrder(v.issues)
    ensures v.score == (if 100 - 20 * |v.issues| > 0 then 100 - 20 * |v.issues| else 0)
    ensures 40 <= v.score <= 100 && (v.score == 100 <==> v.valid)
    ensures TextTooShort in v.issues <==> questionText.None? || |Text.Strip(questionText.value)| < 10
    ensures TooFewOptions in v.issues <==>
              questionType == "MULTIPLE_CHOICE" && (options.None? || |options.value| < 2)
    ensures MissingCorrectAnswer in v.issues <==> questionType == "MULTIPLE_CHOICE" && !Present(correctAnswer)
    ensures AnswerNotInOptions in v.issues <==>
              && questionType == "MULTIPLE_CHOICE" && Present(correctAnswer)
              && (options.None? || correctAnswer.value !in options.value)
    ensures NotTrueOrFalse in v.issues <==>
              questionType == "TRUE_FALSE" && (correctAnswer.None? || correctAnswer.value !in TrueFalseAnswers)
    ensures TooFewPairs in v.issues <==> questionType == "MATCHING" && (pairs.None? || |pairs.value| < 2)
  {
    if questionType == "MULTIPLE_CHOICE" && Present(correctAnswer) && options.None? then
      match ValidateQuestion(questionText, questionType, Some([]), correctAnswer, pairs)
      case Ok(v) => v
      case Err(_) => assert false; Validation(false, [], 0)
    else
      match ValidateQuestion(questionText, questionType, options, correctAnswer, pairs)
      case Ok(v) => v
      case Err(_) => assert false; Validation(false, [], 0)
  }

  /**
   * A constructed `Question` with at least two options, a non-empty correct
   * answer and a text of at least 10 characters passes the check as a
   * multiple-choice question with the full score.
   */
  lemma ConstructedQuestionPasses(q: Core.Question)
    requires q.Valid() && |q.options| >= 2 && q.correctAnswer != "" && |Text.Strip(q.text)| >= 10
    ensures ValidateQuestionCorrected(Some(q.text), "MULTIPLE_CHOICE", Some(q.options), Some(q.correctAnswer), None)
            == Validation(true, [], 100)
  {
  }

  /** One entry of the type distribution. */
  datatype TypeCount = TypeCount(questionType: string, count: nat)

  /** No question type appears twice in a distribution. */
  predicate DistinctTypes(dist: seq<TypeCount>) {
    forall i, j :: 0 <= i < j < |dist| ==> dist[i].questionType != dist[j].questionType
  }

  /** The question types a distribution lists. */
  function TypesOf(dist: seq<TypeCount>): set<string> {
    set i | 0 <= i < |dist| :: dist[i].questionType
  }

  /** The count a distribution records for `t`, 0 when `t` is not listed. */
  function CountOf(dist: seq<TypeCount>, t: string): nat {
    if |dist| == 0 then 0
    else if dist[0].questionType == t then dist[0].count
    else CountOf(dist[1..], t)
  }

  /** The sum of all counts. */
  function Total(dist: seq<TypeCount>): nat {
    if |dist| == 0 then 0 else dist[0].count + Total(dist[1..])
  }

  /**
   * `type_count[t] = type_count.get(t, 0) + 1`: the entry for `t` goes up by
   * one in place, or a new entry with count 1 goes at the end.
   */
  function Tally(dist: seq<TypeCount>, t: string): (r: seq<TypeCount>)
    requires DistinctTypes(dist)
    ensures DistinctTypes(r)
    ensures TypesOf(r) == TypesOf(dist) + {t}
    ensures t !in TypesOf(dist) ==> r == dist + [TypeCount(t, 1)]
    ensures t in TypesOf(dist) ==> |r| == |dist| && forall i :: 0 <= i < |r| ==> r[i].questionType == dist[i].questionType
  {
    if |dist| == 0 then
      var r := [TypeCount(t, 1)];
      TypesOfCons(r);
      r
    else if dist[0].questionType == t then
      var r := [TypeCount(t, dist[0].count + 1)] + dist[1..];
      assert r[1..] == dist[1..];
      TypesOfCons(r);
      TypesOfCons(dist);
      assert DistinctTypes(r) by {
        forall i, j | 0 <= i < j < |r| ensures r[i].questionType != r[j].questionType {
          assert r[j] == dist[j];
        }
      }
      r
    else
      var rest := Tally(dist[1..], t);
      var r := [dist[0]] + rest;
      assert r[1..] == rest;
      TypesOfCons(r);
      TypesOfCons(dist);
      assert dist[0].questionType !in TypesOf(dist[1..]);
      assert DistinctTypes(r) by {
        forall i, j | 0 <= i < j < |r| ensures r[i].questionType != r[j].questionType {
          if i == 0 {
            assert r[j].questionType in TypesOf(rest) by {
              assert r[j] == rest[j - 1];
            }
          } else {
            assert r[i] == rest[i - 1] && r[j] == rest[j - 1];
          }
        }
      }
      r
  }

  /** `Tally` adds exactly one to the count of `t` and to the total, and leaves every other count alone. */
  lemma {:induction false} TallyCounts(dist: seq<TypeCount>, t: string)
    requires DistinctTypes(dist)
    ensures Total(Tally(dist, t)) == Total(dist) + 1
    ensures forall u :: CountOf(Tally(dist, t), u) == CountOf(dist, u) + (if u == t then 1 else 0)
  {
    if |dist| > 0 && dist[0].questionType != t {
      assert DistinctTypes(dist[1..]);
      TallyCounts(dist[1..], t);
      var r := Tally(dist, t);
      assert r[1..] == Tally(dist[1..], t);
    } else if |dist| > 0 {
      var r := Tally(dist, t);
      assert r[1..] == dist[1..];
    }
  }

  /** The types of a non-empty distribution: its first entry's and the rest's. */
  lemma TypesOfCons(dist: seq<TypeCount>)
    requires |dist| > 0
    ensures TypesOf(dist) == {dist[0].questionType} + TypesOf(dist[1..])
  {
  }

  /** How often `t` occurs in `tags`. */
  function Occurrences(tags: seq<string>, t: string): nat {
    if |tags| == 0 then 0
    else Occurrences(tags[..|tags| - 1], t) + (if tags[|tags| - 1] == t then 1 else 0)
  }

  /** The distinct tags of a sequence. */
  function TagSet(tags: seq<string>): set<string> {
    set i | 0 <= i < |tags| :: tags[i]
  }

  /**
   * The loop of `analyze_difficulty`: one entry per distinct type, in order of
   * first appearance, counting that type's occurrences; the counts add up to
   * the number of questions.
   */
  function Distribution(tags: seq<string>): (dist: seq<TypeCount>)
    ensures DistinctTypes(dist)
    ensures TypesOf(dist) == TagSet(tags)
    ensures Total(dist) == |tags|
    ensures forall t :: CountOf(dist, t) == Occurrences(tags, t)
    ensures |tags| > 0 ==> dist[0].questionType == tags[0]
  {
    if |tags| == 0 then []
    else
      var n := |tags| - 1;
      assert TagSet(tags) == TagSet(tags[..n]) + {tags[n]} by {
        assert forall i :: 0 <= i < n ==> tags[..n][i] == tags[i];
      }
      var before := Distribution(tags[..n]);
      TallyCounts(before, tags[n]);
      Tally(before, tags[n])
  }

  /** A distribution without repeated types has as many entries as types. */
  lemma {:induction false} DistinctTypesCount(dist: seq<TypeCount>)
    requires DistinctTypes(dist)
    ensures |TypesOf(dist)| == |dist|
  {
    if |dist| > 0 {
      var n := |dist| - 1;
      var before := dist[..n];
      assert DistinctTypes(before);
      DistinctTypesCount(before);
      assert TypesOf(dist) == TypesOf(before) + {dist[n].questionType} by {
        assert forall i :: 0 <= i < n ==> before[i] == dist[i];
      }
      assert dist[n].questionType !in TypesOf(before);
    }
  }

  /** The type a question is counted under: its "type" field, or "Unknown" when it has none. */
  function TypeTag(questionType: Option<string>): string {
    questionType.GetOr("Unknown")
  }

  /** The type each question is counted under, in order. */
  function Tags(questionTypes: seq<Option<string>>): (tags: seq<string>)
    ensures |tags| == |questionTypes|
    ensures forall i :: 0 <= i < |tags| ==> tags[i] == TypeTag(questionTypes[i])
  {
    seq(|questionTypes|, i requires 0 <= i < |questionTypes| => TypeTag(questionTypes[i]))
  }

  /** The tool's answer: question count, the distribution, and one recommendation. */
  datatype Analysis = Analysis(totalQuestions: nat, typeDistribution: seq<TypeCount>, recommendations: seq<string>)

  const GoodMix := "Good mix of question types"
  const MoreVariety := "Consider adding more variety in question types"

  /**
   * `analyze_difficulty` over the questions' "type" fields: every question is
   * counted under exactly one type, missing types under "Unknown", and the
   * mix is called good exactly when at least three distinct types occur.
   */
  function AnalyzeDifficulty(questionTypes: seq<Option<string>>): (a: Analysis)
    ensures a.totalQuestions == |questionTypes|
    ensures forall t :: CountOf(a.typeDistribution, t) == Occurrences(Tags(questionTypes), t)
    ensures Total(a.typeDistribution) == a.totalQuestions
    ensures DistinctTypes(a.typeDistribution)
    ensures forall i :: 0 <= i < |questionTypes| && questionTypes[i].None? ==> CountOf(a.typeDistribution, "Unknown") > 0
    ensures forall i :: 0 <= i < |a.typeDistribution| ==> a.typeDistribution[i].count > 0
    ensures a.recommendations == [if |TypesOf(a.typeDistribution)| >= 3 then GoodMix else MoreVariety]
  {
    var tags := Tags(questionTypes);
    var dist := Distribution(tags);
    DistinctTypesCount(dist);
    PositiveCounts(tags);
    forall i | 0 <= i < |questionTypes| && questionTypes[i].None?
      ensures CountOf(dist, "Unknown") > 0
    {
      assert tags[i] == "Unknown";
      OccurrencesPositive(tags, i);
    }
    Analysis(|questionTypes|, dist, [if |dist| >= 3 then GoodMix else MoreVariety])
  }

  /** A tag that occurs somewhere is counted at least once. */
  lemma {:induction false} OccurrencesPositive(tags: seq<string>, i: nat)
    requires i < |tags|
    ensures Occurrences(tags, tags[i]) > 0
  {
    var n := |tags| - 1;
    if i < n {
      OccurrencesPositive(tags[..n], i);
    }
  }

  /** Every entry of a distribution counts at least one question. */
  lemma {:induction false} PositiveCounts(tags: seq<string>)
    ensures forall i :: 0 <= i < |Distribution(tags)| ==> Distribution(tags)[i].count > 0
  {
    var dist := Distribution(tags);
    forall i | 0 <= i < |dist| ensures dist[i].count > 0 {
      var t := dist[i].questionType;
      assert t in TypesOf(dist);
      var k :| 0 <= k < |tags| && tags[k] == t;
      OccurrencesPositive(tags, k);
      CountOfEntry(dist, i);
    }
  }

  /** In a distribution without repeated types, the count recorded for an entry's type is that entry's count. */
  lemma {:induction false} CountOfEntry(dist: seq<TypeCount>, i: nat)
    requires DistinctTypes(dist) && i < |dist|
    ensures CountOf(dist, dist[i].questionType) == dist[i].count
  {
    if i > 0 {
      assert dist[0].questionType != dist[i].questionType;
      assert DistinctTypes(dist[1..]);
      CountOfEntry(dist[1..], i - 1);
    }
  }
}
