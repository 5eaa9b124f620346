/** Choice validation (`get_reaction`): prompt until the player quits or
    enters the number of one of the offered reactions. The input lines are
    a finite sequence; running out of them is Python's `EOFError`. How a
    line is read as an integer (Python's `int`) is the parameter `parse`. */
module Choice {
  import opened Story

  datatype Response =
    | Quit                  // the player entered "q" or "quit"
    | Picked(number: int)   // a 1-based position in the offered reactions
    | EndOfInput           // end of input while prompting

  /** The quit sentinels, matched exactly (case-sensitively). */
  predicate IsQuit(line: string) {
    line == "q" || line == "quit"
  }

  /** Only the two lower-case spellings quit: "Q", "QUIT" and "Quit" are
      invalid responses. */
  lemma QuitIsExact()
    ensures IsQuit("q") && IsQuit("quit")
    ensures !IsQuit("Q") && !IsQuit("QUIT") && !IsQuit("Quit") && !IsQuit("q ")
  {
  }

  /** A line the prompt answers with "Invalid Response" or "Please enter a
      number between 1 and count", then prompts again. */
  predicate Rejected(line: string, count: nat, parse: string -> Option<int>) {
    !IsQuit(line) && !(parse(line).Some? && 1 <= parse(line).value <= count)
  }

  /** The answer to one prompt: the first line that is not rejected
      settles it, and the number of lines read is returned with it. */
  function Prompt(lines: seq<string>, count: nat, parse: string -> Option<int>): (p: (Response, nat))
    ensures p.0.EndOfInput? <==> p.1 == |lines| && forall i :: 0 <= i < |lines| ==> Rejected(lines[i], count, parse)
    ensures !p.0.EndOfInput? ==>
              1 <= p.1 <= |lines| && !Rejected(lines[p.1 - 1], count, parse)
              && forall i :: 0 <= i < p.1 - 1 ==> Rejected(lines[i], count, parse)
    ensures p.0.Quit? <==> !p.0.EndOfInput? && IsQuit(lines[p.1 - 1])
    ensures p.0.Picked? ==>
              !IsQuit(lines[p.1 - 1]) && parse(lines[p.1 - 1]) == Some(p.0.number) && 1 <= p.0.number <= count
    ensures count == 0 ==> !p.0.Picked?
    decreases |lines|
  {
    if lines == [] then (EndOfInput, 0)
    else if IsQuit(lines[0]) then (Quit, 1)
    else if parse(lines[0]).Some? && 1 <= parse(lines[0]).value <= count then (Picked(parse(lines[0]).value), 1)
    else
      var rest := Prompt(lines[1..], count, parse);
      (rest.0, rest.1 + 1)
  }

  /** `get_reaction`: reads lines from the front of `lines` until one
      settles the prompt; `used` is how many it consumed. */
  method GetReaction(lines: seq<string>, count: nat, parse: string -> Option<int>)
    returns (choice: Response, used: nat)
    ensures (choice, used) == Prompt(lines, count, parse)
  {
    used := 0;
    while used < |lines|
      invariant used <= |lines|
      invariant Prompt(lines, count, parse) == (Prompt(lines[used..], count, parse).0, Prompt(lines[used..], count, parse).1 + used)
    {
      var response := lines[used];
      assert lines[used..][0] == response && lines[used..][1..] == lines[used + 1..];
      used := used + 1;
      if IsQuit(response) {
        return Quit, used;
      }
      var number := parse(response);
      if number.None? {
        continue;  // Invalid Response
      }
      if number.value < 1 || number.value > count {
        continue;  // Please enter a number between 1 and count
      }
      return Picked(number.value), used;
    }
    assert lines[used..] == [];
    return EndOfInput, used;
  }
}
