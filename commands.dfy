/** `execute`: the console's command interpreter. A command line, already
    split into words, names a command (or one of its aliases) followed by its
    arguments. `execute` tells the console whether to keep reading commands
    and decides what happens: nothing, leaving, an "invalid command" message,
    or a call to the command with the given arguments. */
module Commands {

  /** What one command line makes happen. */
  datatype Effect =
    | Nothing
    | Leave
      /** `invalid command "<name>"` is printed. */
    | Invalid(name: string)
      /** `command_<name>(*args)` is called; when the number of arguments is
          not the command's, a warning is printed first and the call then
          fails with a TypeError, which is caught and printed. */
    | Run(name: string, args: seq<string>, arityMismatch: bool)

  /** `execute`'s result (whether the console goes on) and its effect. */
  datatype Step = Step(keepRunning: bool, effect: Effect)

  /** The `command_*` functions and the number of parameters each takes. */
  const Arity: map<string, nat> := map[
    "pwd" := 0, "tail" := 0, "cd" := 1, "dir" := 0, "add" := 1,
    "del" := 1, "list" := 0, "stun" := 0, "setaddress" := 1, "help" := 0]

  /** `aliases`. */
  const Aliases: map<string, string> := map[
    "+" := "add", "-" := "del", "d" := "del", "lst" := "list", "ls" := "dir",
    "l" := "list", "log" := "tail", "set" := "setaddress", "q" := "exit"]

  /** The command a word names: its alias target, or the word itself. */
  function Resolve(word: string): string
  {
    if word in Aliases then Aliases[word] else word
  }

  /** `execute(cmd)`. */
  function Execute(cmd: seq<string>): Step
  {
    if |cmd| == 0 then Step(true, Nothing)
    else
      var name, args := Resolve(cmd[0]), cmd[1..];
      if name == "exit" then Step(false, Leave)
      else if name !in Arity then Step(false, Invalid(name))
      else Step(true, Run(name, args, |args| != Arity[name]))
  }

  /** Every alias names a command or "exit", and no alias names another
      alias: one lookup resolves it. */
  lemma AliasesResolve()
    ensures forall a :: a in Aliases ==> (Aliases[a] in Arity || Aliases[a] == "exit")
    ensures forall a :: a in Aliases ==> Aliases[a] !in Aliases
  {
  }

  /** Exactly "exit" and its alias "q" name leaving. */
  lemma ExitWords(word: string)
    ensures Resolve(word) == "exit" <==> word == "exit" || word == "q"
  {
    if word in Aliases && word != "q" {
      assert Aliases[word] != "exit";
    }
  }

  /** `execute` returns False exactly for "exit", "q" and a word that names
      no command; an empty line keeps the console running. */
  lemma StopsIff(cmd: seq<string>)
    ensures !Execute(cmd).keepRunning <==>
      |cmd| > 0 && (cmd[0] == "exit" || cmd[0] == "q" || Resolve(cmd[0]) !in Arity)
  {
    if |cmd| > 0 {
      ExitWords(cmd[0]);
      assert "exit" !in Arity;
    }
  }

  /** A word naming a command always runs it with the remaining words as its
      arguments, and the console goes on, even when the number of arguments
      is wrong: that is only reported. */
  lemma RunsCommand(cmd: seq<string>)
    requires |cmd| > 0 && Resolve(cmd[0]) in Arity
    ensures Execute(cmd) == Step(true, Run(Resolve(cmd[0]), cmd[1..], |cmd| - 1 != Arity[Resolve(cmd[0])]))
  {
    assert "exit" !in Arity;
  }

  /** The effect of a line is decided by its first word resolved: the alias
      and the command it stands for behave the same. */
  lemma AliasLikeTarget(alias: string, args: seq<string>)
    requires alias in Aliases
    ensures Execute([alias] + args) == Execute([Aliases[alias]] + args)
  {
    AliasesResolve();
    assert ([alias] + args)[0] == alias && ([alias] + args)[1..] == args;
    assert ([Aliases[alias]] + args)[0] == Aliases[alias] && ([Aliases[alias]] + args)[1..] == args;
  }
}
