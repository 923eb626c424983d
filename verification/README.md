# quizy — a Dafny model of the quiz core, its terminal helpers, the release script and the MCP checks

This project models, as pure Dafny functions over immutable values, the parts
of the `quizy` package that decide what happens:

- **`quizy/core.py`**. A `Question` may be built only when its correct answer
  is one of its options, and `check_answer` compares for equality. A `Quiz`
  keeps an ordered list of questions plus a score and a total.
  `add_question` refuses anything that is not a question. `clear` empties
  the quiz. `start` is the scoring loop: it asks every question in order and
  re-prompts until a line names an option. Ctrl-C or the end of input stops
  it. One point goes to each correct pick, and a finished run reports
  `score / total * 100`.
- **`quizy/cli.py`**. `get_answer` decides one event at a time:
  - a blank line is a skip when skipping is allowed, and a re-prompt when it
    is not;
  - a line holding a number from 1 to the option count picks that option;
  - any other line is re-prompted;
  - Ctrl-C or the end of input gives `None`.

  The `TimerManager` state machine is two timers, each a start time and an
  optional limit. Time is passed in as `now`, in seconds.
- **`release.py`**. `increment_version` does the semantic-version bump. Each
  line of `load_env` reads as blank, a comment, or `KEY=VALUE` split at the
  first `=`, and later lines override earlier ones. `get_pypi_token` prefers
  a non-empty `.env` value over the process environment.
- **`quizy/mcp_server.py`**. `validate_question` computes the issues and the
  score. `analyze_difficulty` computes the type distribution and the
  recommendation.

Console input is a sequence of events, `Line(text)` or `Interrupt` (Ctrl-C).
When the sequence is used up, `input()` would raise `EOFError`. The Python
builtins the code relies on are written out in module `Text`:

- `str.strip()` with Python's whitespace set;
- `int()` in base 10, with surrounding whitespace, a sign and `_` digit
  separators. The whitespace `int()` skips is that of `str.isspace` without
  the four information separators U+001C..U+001F;
- `str()` of an integer;
- `str.split`.

Modules: `Wrappers` (Option/Result), `Text`, `Input` (events, and reading a
line as an option number), `Core`, `Cli`, `Release`, `McpServer`.

## Model

| member | source | states |
|---|---|---|
| Core.NewQuestion | quizy/core.py:8-22 | Construction succeeds exactly when the correct answer is among the options; otherwise it raises `ValueError("Correct answer must be one of the options")`; a built question keeps all four fields |
| Core.CheckAnswerOnOptions | quizy/core.py:21-26 | On a constructed question `check_answer` accepts exactly the correct answer, so some option is accepted and there is at least one option |
| Core.NewQuiz | quizy/core.py:32-41 | A missing question list becomes empty, both counters start at 0, and the quiz is valid exactly when its questions are |
| Core.AddQuestion | quizy/core.py:43-47 | A non-question raises `TypeError("Must be a Question instance")`; a question is appended at the end, earlier questions, title and counters unchanged, validity preserved |
| Core.Clear | quizy/core.py:105-109 | No questions remain, score and total are 0, the title stays, the result is valid |
| Input.ReadChoice | quizy/core.py:71-79 | A line selects option `n-1` exactly when `int()` reads it as `n` with `1 <= n <= count`; a line `int()` rejects is told apart from an out-of-range number |
| Input.ReadOptionLine | quizy/core.py:66-75 | Typing the number printed next to an option, as `str(index + 1)`, selects exactly that option |
| Core.Question.CheckAnswer | quizy/core.py:24-26 | Exactly the correct answer is accepted, and on a constructed question an accepted answer is one of the options |
| Core.GetQuestions | quizy/core.py:101-103 | The quiz's own questions come back in order; on a valid quiz each one's correct answer is among its options |
| Core.ReplyTo | quizy/core.py:69-82 | Ctrl-C and only Ctrl-C stops the loop; a line is accepted exactly when, stripped, `int()` reads it as a number `n` from 1 to the option count, and then it picks option `n-1` |
| Core.ReadPickFirstAccepted | quizy/core.py:69-82 | When the answer loop picks, the pick is the option of the first accepted line, and every event before that line was re-prompted |
| Core.ReadPickSkipsReprompts | quizy/core.py:69-82 | Re-prompted lines are consumed without effect; after them, the end of input or Ctrl-C stops the quiz and an accepted line picks its option |
| Core.Play | quizy/core.py:64-84 | At most one pick per question, each naming an option of its question; the run finishes exactly when every question got a pick |
| Core.PlayFirstDecision | quizy/core.py:64-84 | After re-prompted lines, the end of input or Ctrl-C ends the run with no further picks, and a line naming option `i` records `i` and continues with the next question on the rest of the input |
| Core.ScoreCountsCorrectPicks | quizy/core.py:84-90 | The accumulated score equals the number of questions whose pick is the correct answer, hence never exceeds the number of answers |
| Core.Start | quizy/core.py:49-98 | An empty quiz is left untouched and reports no questions; otherwise `total` is the question count, `score` is the number of correct picks, the run is finished exactly when every question was answered, the percentage is `score / total * 100` (stated as `percent * total == score * 100`), lies in 0..100 and is 100 exactly when all answers are right, and validity is preserved |
| Core.Percent | quizy/core.py:98 | The result `p` satisfies `p * total == score * 100`, so it is `score / total * 100`; it lies in 0..100 and is 100 exactly for a perfect score |
| Core.PlayAnswerLines | quizy/core.py:64-88 | Typing one option number per question runs the quiz to the end with exactly those picks |
| Core.ClearThenStart | quizy/core.py:55-57 | After `clear`, `start` finds no questions and changes nothing |
| Cli.Decide | quizy/cli.py:38-57 | Ctrl-C aborts; a blank line skips exactly when skipping is allowed and re-prompts otherwise; a choice happens exactly for a number from 1 to the option count and is the option at that number |
| Cli.GetAnswer | quizy/cli.py:24-59 | The answer returned, when there is one, is one of the question's options |
| Cli.GetAnswerFirstDecision | quizy/cli.py:38-59 | Re-prompted events are consumed without effect; the first deciding event fixes the answer (its option, or `None` for skip and Ctrl-C), and input that runs out gives `None` |
| Cli.GetAnswerOptionLine | quizy/cli.py:49-53 | Typing the number of option `i` returns option `i` whatever input follows, with or without skipping allowed |
| Cli.Elapsed | quizy/cli.py:141-151 | A timer never started reads 0; a started one reads `now - start` |
| Cli.Remaining | quizy/cli.py:165-177 | No limit gives `None`; otherwise the remaining time is never negative, is 0 exactly when the timer has run out, adds up with the elapsed time to the limit while time is left, and does not exceed a non-negative limit once time has moved on from the start |
| Cli.TimedOut | quizy/cli.py:153-163 | Only a limited timer can run out; one never started has run out exactly when its limit is 0 or less; a started one exactly once `now` reaches start plus limit |
| Cli.TimedOutStays | quizy/cli.py:153-163 | A started timer that has run out stays run out later, with 0 remaining |
| Cli.NewTimerManager | quizy/cli.py:125-129 | Neither timer is started nor limited, and both read 0 elapsed at any time |
| Cli.StartQuiz | quizy/cli.py:131-134 | The quiz timer restarts at `now` with the given limit; the question timer is untouched; a limit never exists without a start |
| Cli.StartQuestion | quizy/cli.py:136-139 | The question timer restarts at `now` with the given limit; the quiz timer is untouched; a limit never exists without a start |
| Cli.StartQuestionFresh | quizy/cli.py:136-163 | Right after a start, 0 has elapsed; a positive limit has fully remaining time and no timeout; a limit of 0 or less has already run out; no limit never runs out |
| Release.ParseFormatVersion | release.py:133-149 | The version string `increment_version` writes splits back into the same three integers it formatted |
| Release.Bump | release.py:137-147 | A bump exists exactly for `major`, `minor` and `patch`, and always leads to a strictly later version |
| Release.IncrementVersion | release.py:133-149 | The bump succeeds exactly for a version of three integers and a type among `major`, `minor`, `patch`; a version that is not three integers is rejected first; an unknown type is rejected next; otherwise the output parses back to the old version with the right component raised by one and the lower ones reset to 0, strictly later than the input, and it is written exactly as `f"{major}.{minor}.{patch}"` prints that version |
| Release.PatchOfAnySpelling | release.py:135-149 | Every spelling of 1.2.3 that `int()` accepts bumps, as a patch, to the string `1.2.4` |
| Release.LeadingZeroDropped | release.py:135-149 | `01.2.3` bumps, as a patch, to `1.2.4`: leading zeros are not carried over |
| Release.IncrementFormatted | release.py:133-149 | Bumping a formatted version gives the formatted bumped version |
| Release.HelpTextExamples | release.py:290 | The examples of the help text hold: 0.1.0 to 0.1.1 (patch), 0.1.1 to 0.2.0 (minor), 0.2.0 to 1.0.0 (major) |
| Release.ParseEnvLine | release.py:70-79 | Blank lines, comments and lines without `=` give nothing; otherwise the key and value are the stripped text before and after the first `=` |
| Release.ParseEnvLineWritten | release.py:70-79 | A line written as `key=value`, with a key that has no `=` and starts no comment and both sides free of surrounding whitespace, reads back as that binding, even when the value contains `=` |
| Release.CollectLastBindingWins | release.py:61-83 | A key is in the collected map exactly when some entry binds it, and its value is that of the last entry binding it |
| Release.LoadEnv | release.py:61-83 | No lines give an empty map; a key is loaded exactly when some line binds it |
| Release.LoadEnvLastBindingWins | release.py:61-83 | A key is in the loaded `.env` map exactly when some line binds it, and its value is that of the last line binding it |
| Release.SelectToken | release.py:86-95 | A non-empty `.env` value for the mode's key wins; otherwise the environment's value, or `None` when it has none |
| Release.GetPypiToken | release.py:86-108 | `None` only when the environment lacks the key; an empty token only when the environment holds an empty one; any token comes from the `.env` values or the environment's |
| Release.GetPypiTokenPrefersFile | release.py:86-108 | The last `KEY=token` line of `.env` for the mode's key, when non-empty, supplies the token whatever the environment holds |
| Release.GetPypiTokenEmptyInFile | release.py:86-108 | When the last `KEY=token` line of `.env` for the mode's key is empty, the environment's value is the token, or `None` when it has none |
| Release.GetPypiTokenMissingInFile | release.py:86-108 | When no line of `.env` binds the mode's key, the environment's value is the token, or `None` when it has none |
| Release.SeparatorMakesVersionMalformed | release.py:135 | `"\x1c1.2.3"` is rejected as malformed, because `int()` does not skip a leading U+001C |
| Release.LoadEnvLastValue | release.py:61-83 | The value loaded for a key is the one on the last line that binds it |
| Text.StripKeepsInfix | quizy/core.py:71 | `strip()` returns one contiguous piece of the input with no whitespace at either end, and removes whitespace only |
| Text.StripIdempotent | quizy/core.py:71 | Stripping an already stripped line changes nothing |
| Text.ParseIntSeparatorMargin | release.py:135 | `int()` skips a leading space but rejects a leading U+001C, which `strip()` would remove |
| Text.ParseIntLeadingZero | release.py:135 | `int("01") == 1`, while `str(1)` is `"1"` |
| Text.ParseShowInt | release.py:149 | `int(str(n)) == n` for every integer `n` (the 4300-digit conversion limit of CPython is not modelled) |
| McpServer.TextIssues | quizy/mcp_server.py:125-126 | The text issue is reported exactly when the text is missing or shorter than 10 characters once stripped |
| McpServer.MessagesTellIssuesApart | quizy/mcp_server.py:126-142 | The six issue messages are pairwise different, so the reported strings determine the issues |
| McpServer.TypeIssues | quizy/mcp_server.py:128-142 | Each type-specific issue is reported exactly under its condition, at most two of them, none twice and in the order the code appends them; the `TypeError` arises exactly for a multiple-choice question with a correct answer but no options |
| McpServer.ValidateQuestion | quizy/mcp_server.py:121-145 | Each of the six issues is reported exactly under its condition, none twice, in the order the code appends them (so the text issue first); the question is valid exactly when there are none; the score is `max(0, 100 - 20 * issues)`, which stays in 40..100 and is 100 exactly when valid |
| McpServer.ValidExactlyWithoutIssueConditions | quizy/mcp_server.py:123-144 | When the tool answers, the question is valid exactly when none of the six issue conditions holds |
| McpServer.MissingOptionsFails | quizy/mcp_server.py:129-134 | A multiple-choice question with a correct answer and no options list makes the tool fail instead of answering |
| McpServer.ValidateQuestionCorrected | quizy/mcp_server.py:121-145 | With a missing options list read as an empty one, the check always answers and agrees with the tool wherever the tool answers; each of the six issues is reported exactly under its condition (a missing list counting as too few options and as not holding the answer), none twice and in the order of the checks; valid exactly without issues, score `100 - 20 * issues` |
| McpServer.ConstructedQuestionPasses | quizy/mcp_server.py:121-145 | A constructed question with two or more options, a non-empty answer and a text of 10 or more characters is valid with score 100 |
| McpServer.Tally | quizy/mcp_server.py:175 | Counting one more question keeps the types distinct and adds its type to the listed ones; a new type is appended at the end with count 1, and a known type leaves every entry's type in place |
| McpServer.TallyCounts | quizy/mcp_server.py:175 | Counting one more question of type `t` raises the count of `t` and the total by one and changes no other count |
| McpServer.Distribution | quizy/mcp_server.py:172-175 | The distribution lists each occurring type once, exactly the types that occur, counts each type's occurrences, and its counts add up to the number of questions; the first entry is the first question's type |
| McpServer.AnalyzeDifficulty | quizy/mcp_server.py:168-180 | The total is the question count and the counts add up to it; a question without a type is counted under "Unknown"; every listed type counts at least one question; the mix is called good exactly when three or more distinct types occur |
| McpServer.DistinctTypesCount | quizy/mcp_server.py:177 | `len(type_count)` is the number of distinct types |
| McpServer.PositiveCounts | quizy/mcp_server.py:172-175 | Every entry of the distribution counts at least one question |

## Left out

- Printing, colours, and the prompts' wording: output has no effect on any
  decision modelled here.
- Console input: `input()` is modelled as a sequence of events. Lines come
  without their newline. The model does not distinguish `EOFError` from
  Ctrl-C where the code treats them alike.
- `time.time()`: it becomes the `now` parameter. Python floats are modelled as
  exact reals, so rounding is not modelled.
- Python's `int()` also accepts non-ASCII Unicode decimal digits. `Text.ParseInt`
  accepts ASCII digits only.
- `Quiz.__init__` does not type-check the entries of the list it is given, and
  it keeps a reference to that list. The model holds questions by value and
  only ever holds `Question`s.
- `QuizCLI.display_question`, `display_result`, `display_detailed_results` and
  `run_interactive`: these are display code. `run_interactive` also relies on
  `Quiz.execute`, `allow_skip` and a result type, none of which exist in
  `quizy/core.py`. The same goes for the `ResultStatus` that `quizy/cli.py`
  imports from it. The question types and results used by the tests are
  likewise absent from `quizy/core.py` and are not modelled.
- `release.py` beyond the three functions above: reading `pyproject.toml`,
  writing files, git, the build, the upload, and argument parsing. A missing
  `.env` file is modelled as no lines. An exception while reading it, which
  the script reports and then ignores, is not modelled.
- `mcp_server.py`: the MCP server plumbing, JSON encoding and decoding,
  `generate_quiz` (which calls an AI service), and `create_quiz_from_questions`
  (which only echoes its decoded input). In `analyze_difficulty`, a question
  that is not an object, or whose "type" is present but `null`, is not
  modelled. Type names are strings, and a missing "type" is `None`.
- Text.ParseInt: CPython refuses to convert between `str` and `int` beyond
  4300 digits (`sys.int_max_str_digits`) and raises `ValueError`; the model
  converts integers of any length. So does `Text.ShowInt`.
- Release.IncrementVersion: a version component of more than 4300 digits
  makes `increment_version` raise `ValueError` in CPython; the model bumps it.
- Cli.GetAnswer: its contract states only that the answer is an option. The
  complete behaviour is stated by `Cli.GetAnswerFirstDecision` and
  `Cli.GetAnswerOptionLine`.

## Findings

| source | as written | input that shows it | evidently intended | confidence | as-written member | corrected member |
|---|---|---|---|---|---|---|
| quizy/mcp_server.py:129-134 | With `options` missing, the check `not options` reports "Need at least 2 options". The next check, `correct_answer not in options`, then tests membership in `None` and raises `TypeError`, so the tool fails instead of reporting. | `question_type="MULTIPLE_CHOICE"`, `options=None`, `correct_answer="4"` | Read a missing list as an empty one, as the first check already does. The tool then reports "Need at least 2 options" and "Correct answer must be in options". | medium, not executed | McpServer.MissingOptionsFails | McpServer.ValidateQuestionCorrected |
