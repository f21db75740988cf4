/** The yes/no question of the interactive installer (`_askYesNo`). The
    console is modelled by the sequence of lines the user types. */
module Prompt {
  import opened Wrappers
  import opened PyText

  /** Accepted replies, after lower-casing, and the answer each stands for. */
  const Replies: map<string, string> :=
    map["yes" := "yes", "y" := "yes", "ye" := "yes", "no" := "no", "n" := "no"]

  datatype AskError =
    | InvalidDefault(message: string)  // `Error` raised before any prompt
    | EndOfInput                       // `input()` raising `EOFError`

  /** The default must be "yes", "no" or absent (an answer is required). */
  predicate ValidDefault(default: Option<string>) {
    default.None? || default.value == "yes" || default.value == "no"
  }

  /** The text written before each read: the question, then the choices
      with the default's letter in upper case. */
  function PromptText(question: string, default: Option<string>): (p: string)
    requires ValidDefault(default)
    ensures |p| == |question| + 7 && p[..|question|] == question
    ensures p[|question| + 2] == 'Y' <==> default == Some("yes")
    ensures p[|question| + 4] == 'N' <==> default == Some("no")
  {
    var suffix := if default.None? then " [y/n] "
      else if default.value == "yes" then " [Y/n] "
      else " [y/N] ";
    assert (question + suffix)[|question|..] == suffix;
    question + suffix
  }

  /** What one typed line means: `Some(answer)`, or `None` to ask again.
      An empty line takes the default when there is one; any other line is
      understood exactly when its lower-case form is an accepted reply, and
      with a valid default every answer is "yes" or "no". */
  function Interpret(default: Option<string>, line: string): (r: Option<string>)
    ensures line == "" ==> r == (if default.Some? then Some(default.value) else None)
    ensures line != "" ==> (r.Some? <==> Lower(line) in Replies)
    ensures ValidDefault(default) && r.Some? ==> r.value == "yes" || r.value == "no"
  {
    var choice := Lower(line);
    if default.Some? && choice == "" then Some(default.value)
    else if choice in Replies then Some(Replies[choice])
    else None
  }

  /** Replies that count as "yes" or "no", independently of the table. */
  predicate MeansYes(default: Option<string>, line: string) {
    var choice := Lower(line);
    choice == "y" || choice == "ye" || choice == "yes" ||
    (choice == "" && default == Some("yes"))
  }

  predicate MeansNo(default: Option<string>, line: string) {
    var choice := Lower(line);
    choice == "n" || choice == "no" || (choice == "" && default == Some("no"))
  }

  /** With a valid default, a line is answered "yes" exactly when it means
      yes, "no" exactly when it means no, and re-prompts otherwise. */
  lemma InterpretClassifies(default: Option<string>, line: string)
    requires ValidDefault(default)
    ensures Interpret(default, line) == Some("yes") <==> MeansYes(default, line)
    ensures Interpret(default, line) == Some("no") <==> MeansNo(default, line)
    ensures Interpret(default, line).None? <==>
      !MeansYes(default, line) && !MeansNo(default, line)
  {
  }

  /** Replies are case-insensitive: a line that spells an accepted reply
      `w` with any of its letters in upper case means what `w` means. */
  lemma RepliesIgnoreCase(default: Option<string>, w: string, line: string)
    requires w in Replies
    requires |line| == |w|
    requires forall k :: 0 <= k < |w| ==> line[k] == w[k] || line[k] as int + 32 == w[k] as int
    ensures Interpret(default, line) == Some(Replies[w])
  {
    assert forall k :: 0 <= k < |w| ==> 'a' <= w[k] <= 'z';
    assert Lower(line) == w;
  }

  /** Written after a line that is not understood (spelled as the installer prints it). */
  const RetryMessage: string := "Please repond with 'yes' or 'no' (or 'y' or 'n').\n"

  /** The console text of `n` rounds that were not understood: the prompt,
      then the retry message, each time. */
  function Rounds(prompt: string, n: nat): (w: seq<string>)
    ensures |w| == 2 * n
    ensures forall k :: 0 <= k < |w| ==> w[k] == if k % 2 == 0 then prompt else RetryMessage
  {
    if n == 0 then [] else Rounds(prompt, n - 1) + [prompt, RetryMessage]
  }

  /** Asks until a line is understood. Returns the answer, the number of
      lines read and the text written to the console; fails without reading
      when the default is invalid, and when the input ends before an
      answer. */
  method AskYesNo(question: string, default: Option<string>, input: seq<string>)
    returns (r: Result<string, AskError>, used: nat, written: seq<string>)
    ensures !ValidDefault(default) ==>
      used == 0 && written == [] &&
      r == Failure(InvalidDefault("invalid default answer: '" + default.value + "'"))
    ensures ValidDefault(default) ==> used <= |input|
    ensures r.Success? ==>
      0 < used && Interpret(default, input[used - 1]) == Some(r.value) &&
      (r.value == "yes" || r.value == "no")
    ensures r.Success? ==> forall k :: 0 <= k < used - 1 ==> Interpret(default, input[k]).None?
    ensures r.Success? ==>
      written == Rounds(PromptText(question, default), used - 1) + [PromptText(question, default)]
    ensures ValidDefault(default) && r.Failure? ==>
      r.error == EndOfInput && used == |input| &&
      (forall k :: 0 <= k < |input| ==> Interpret(default, input[k]).None?) &&
      written == Rounds(PromptText(question, default), |input|) + [PromptText(question, default)]
  {
    if !ValidDefault(default) {
      return Failure(InvalidDefault("invalid default answer: '" + default.value + "'")), 0, [];
    }
    var prompt := PromptText(question, default);
    used, written := 0, [];
    while used < |input|
      invariant used <= |input|
      invariant forall k :: 0 <= k < used ==> Interpret(default, input[k]).None?
      invariant written == Rounds(prompt, used)
    {
      var before := written;
      written := written + [prompt];
      var choice := Lower(input[used]);
      used := used + 1;
      if default.Some? && choice == "" {
        return Success(default.value), used, written;
      } else if choice in Replies {
        return Success(Replies[choice]), used, written;
      }
      written := written + [RetryMessage];
      assert written == before + [prompt, RetryMessage];
    }
    // the prompt is written once more before the read that finds no line
    written := written + [prompt];
    r := Failure(EndOfInput);
  }
}
