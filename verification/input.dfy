/**
 * Console input as the interactive loops see it. Each call to Python's
 * `input()` yields the next event; once the sequence is used up, `input()`
 * raises `EOFError`.
 */
module Input {
  import opened Wrappers
  import Text

  /** One read from the console: a line, or Ctrl-C (`KeyboardInterrupt`). */
  datatype Event = Line(text: string) | Interrupt

  /** How an (already stripped) answer line reads as a 1-based option number. */
  datatype Choice = Chosen(index: nat) | OutOfRange | NotANumber

  /**
   * `int(line) - 1` checked against `0 <= index < count`: a number `n` selects
   * the 0-based option `n - 1` exactly when `1 <= n <= count`.
   */
  function ReadChoice(line: string, count: nat): (c: Choice)
    ensures c.Chosen? <==> Text.ParseInt(line).Some? && 1 <= Text.ParseInt(line).value <= count
    ensures c.Chosen? ==> c.index < count && Text.ParseInt(line) == Some(c.index + 1)
    ensures c.NotANumber? <==> Text.ParseInt(line).None?
  {
    match Text.ParseInt(line)
    case None => NotANumber
    case Some(n) => if 0 <= n - 1 < count then Chosen(n - 1) else OutOfRange
  }

  /** The line a user types to pick the 0-based option `index`. */
  function OptionLine(index: nat): string {
    Text.ShowInt(index + 1)
  }

  /** Typing the printed number of an option selects exactly that option. */
  lemma ReadOptionLine(index: nat, count: nat)
    requires index < count
    ensures ReadChoice(Text.Strip(OptionLine(index)), count) == Chosen(index)
  {
    Text.StripTrimmed(OptionLine(index));
    Text.ParseShowInt(index + 1);
  }
}
