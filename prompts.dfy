/**
 * The console's re-prompting loops. Each prompt's answers are given as a sequence; a loop keeps
 * the first acceptable one. When no answer in the sequence is acceptable the program is still
 * waiting at that prompt.
 */
module Prompts {
  import opened Wrappers
  import opened Seqs

  /** `do { answer = ReadLine(); } while (!acceptable(answer));` over the supplied answers. */
  method ReadUntil<T>(answers: seq<T>, accept: T -> bool) returns (r: Option<nat>)
    ensures r == First(answers, accept)
  {
    var i := 0;
    while i < |answers|
      invariant 0 <= i <= |answers|
      invariant forall j | 0 <= j < i :: !accept(answers[j])
    {
      if accept(answers[i]) {
        return Some(i);
      }
      i := i + 1;
    }
    return None;
  }

  /** The number int.TryParse leaves in its out-argument: the parsed value, or 0 on failure. */
  function ParsedOrZero(answer: Option<int>): int {
    if answer.Some? then answer.value else 0
  }

  /** The menu loops accept an answer whose TryParse result lies in 0..max. */
  function MenuAccept(max: int): Option<int> -> bool {
    a => 0 <= ParsedOrZero(a) <= max
  }

  /** The option a menu loop settles on. */
  function MenuChoice(answers: seq<Option<int>>, max: int): (r: Option<int>)
    ensures r.Some? ==> 0 <= r.value <= max
    ensures r.Some? <==> exists j | 0 <= j < |answers| :: 0 <= ParsedOrZero(answers[j]) <= max
    ensures r.Some? ==> exists i | 0 <= i < |answers| ::
      && r.value == ParsedOrZero(answers[i])
      && forall j | 0 <= j < i :: !(0 <= ParsedOrZero(answers[j]) <= max)
  {
    match First(answers, MenuAccept(max))
    case None => None
    case Some(i) =>
      assert forall j | 0 <= j < i :: !MenuAccept(max)(answers[j]);
      Some(ParsedOrZero(answers[i]))
  }

  /** An answer that is not a number selects option 0, because TryParse leaves 0 and 0 is in range. */
  lemma NonNumericChoosesZero(answers: seq<Option<int>>, max: int)
    requires max >= 0 && answers != [] && answers[0].None?
    ensures MenuChoice(answers, max) == Some(0)
  {
  }
}
