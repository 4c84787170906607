/**
 * The command dispatcher of bot/commands/base.py, shared by every command
 * class: a command object has a prefix and a command map, from command words
 * to the methods that answer them, and `handle` picks the method named by the
 * first word of a command.
 *
 * The class's attributes, which `_command_map` reads by reflection, are given
 * as a sequence of `Member`s in definition order. A handler is identified by
 * its attribute name.
 */
module Dispatch {
  import opened Wrappers
  import opened Search
  import opened Text

  /** An attribute of a command class: its name and whether it is a plain function. */
  datatype Member = Member(name: string, isFunction: bool)

  /** A command object once `__init__` has run. */
  datatype BotCommand = BotCommand(prefix: string, commands: map<string, string>)

  /** What `handle` does with a command. */
  datatype Outcome =
    | Call(handler: string, argument: string)   // the named method is called with the argument
    | Invalid(prefix: string)                   // `invalid`: no valid command of this prefix was given

  /** The command `_command_map` always adds, answered by the class's `help`. */
  const HelpCommand: string := "help"

  /** `_command_map` exposes the functions whose names do not start with "_". */
  predicate Exposed(m: Member)
    ensures Exposed(m) <==> m.isFunction && (m.name == [] || m.name[0] != '_')
  {
    !("_" <= m.name) && m.isFunction
  }

  /** The command word of a method: its name with every "_" replaced by a space. */
  function CommandWord(name: string): (w: string)
    ensures |w| == |name| && '_' !in w
    ensures forall k :: 0 <= k < |name| ==> w[k] == if name[k] == '_' then ' ' else name[k]
  {
    ReplaceChar(name, '_', ' ')
  }

  /**
   * The dictionary that the loop of `_command_map` builds from `members`:
   * a later member overwrites an earlier one with the same command word.
   */
  function Mapped(members: seq<Member>): map<string, string>
  {
    if |members| == 0 then map[]
    else
      var m := members[|members| - 1];
      var init := Mapped(members[..|members| - 1]);
      if Exposed(m) then init[CommandWord(m.name) := m.name] else init
  }

  /** The last exposed member whose command word is `word`. */
  function LastWithWord(members: seq<Member>, word: string): (r: Option<nat>)
    ensures r.Some? ==> r.value < |members| && Exposed(members[r.value]) && CommandWord(members[r.value].name) == word
    ensures r.Some? ==> forall j :: r.value < j < |members| ==> !(Exposed(members[j]) && CommandWord(members[j].name) == word)
    ensures r.None? <==> forall j :: 0 <= j < |members| ==> !(Exposed(members[j]) && CommandWord(members[j].name) == word)
  {
    LastWhere(members, (m: Member) => Exposed(m) && CommandWord(m.name) == word)
  }

  /**
   * A command word is mapped exactly when an exposed member has it, and it
   * is mapped to the last such member: a later definition wins.
   */
  lemma {:induction false} MappedLast(members: seq<Member>, word: string)
    ensures word in Mapped(members) <==> LastWithWord(members, word).Some?
    ensures word in Mapped(members) ==> Mapped(members)[word] == members[LastWithWord(members, word).value].name
  {
    if |members| > 0 {
      var n := |members| - 1;
      var init := members[..n];
      MappedLast(init, word);
      assert LastWithWord(members, word) == (
        if Exposed(members[n]) && CommandWord(members[n].name) == word then Some(n)
        else LastWithWord(init, word));
      if LastWithWord(init, word).Some? {
        assert init[LastWithWord(init, word).value] == members[LastWithWord(init, word).value];
      }
    }
  }

  /** `_command_map`: the exposed members under their command words, and `help`. */
  method CommandMap(members: seq<Member>) returns (commands: map<string, string>)
    ensures commands == Mapped(members)[HelpCommand := HelpCommand]
  {
    commands := map[];
    for i := 0 to |members|
      invariant commands == Mapped(members[..i])
    {
      assert members[..i + 1][..i] == members[..i];
      var m := members[i];
      if !("_" <= m.name) && m.isFunction {
        commands := commands[CommandWord(m.name) := m.name];
      }
    }
    assert members[..|members|] == members;
    commands := commands[HelpCommand := HelpCommand];
  }

  /**
   * Every command word of the map is `help` or the word of an exposed member,
   * and every exposed member and `help` can be called.
   */
  lemma CommandMapKeys(members: seq<Member>, word: string)
    ensures word in Mapped(members)[HelpCommand := HelpCommand] <==>
      word == HelpCommand
      || exists i :: 0 <= i < |members| && Exposed(members[i]) && CommandWord(members[i].name) == word
    ensures Mapped(members)[HelpCommand := HelpCommand][HelpCommand] == HelpCommand
    ensures word != HelpCommand && LastWithWord(members, word).Some? ==>
      Mapped(members)[HelpCommand := HelpCommand][word] == members[LastWithWord(members, word).value].name
  {
    MappedLast(members, word);
  }

  /**
   * `__init__`: the given prefix, or the class's `DEFAULT_COMMAND_PREFIX`
   * when none is given, and the command map of the class.
   */
  method NewBotCommand(defaultPrefix: string, members: seq<Member>, prefix: Option<string>) returns (b: BotCommand)
    ensures b.prefix == (if prefix.Some? then prefix.value else defaultPrefix)
    ensures b.commands == Mapped(members)[HelpCommand := HelpCommand]
    ensures HelpCommand in b.commands
  {
    var p := if prefix.Some? then prefix.value else defaultPrefix;
    var commands := CommandMap(members);
    b := BotCommand(p, commands);
  }

  /**
   * The command `handle` looks up: when it starts with the prefix, every
   * occurrence of the prefix removed and the rest trimmed; otherwise as it is.
   */
  function Parsed(prefix: string, command: string): (r: string)
    ensures prefix <= command ==> Trimmed(r)
    ensures !(prefix <= command) ==> r == command
  {
    if prefix <= command then Strip(RemoveAll(command, prefix)) else command
  }

  /**
   * `handle`: the method whose command word is the first word of the parsed
   * command is called with the parsed command, every occurrence of that word
   * removed and trimmed; with no such method the answer is `invalid`.
   */
  function Handle(b: BotCommand, command: string): (r: Outcome)
    ensures r.Call? <==> FirstWord(Parsed(b.prefix, command)) in b.commands
    ensures r.Call? ==> r.handler == b.commands[FirstWord(Parsed(b.prefix, command))]
    ensures r.Call? ==> Trimmed(r.argument)
    ensures r.Call? && FirstWord(Parsed(b.prefix, command)) != [] ==>
      var parsed := Parsed(b.prefix, command);
      r.argument == Strip(Concat(Split(parsed, FirstWord(parsed))))
    ensures r.Invalid? ==> r.prefix == b.prefix
  {
    var parsed := Parsed(b.prefix, command);
    var first := FirstWord(parsed);
    if first in b.commands then
      var argument := Strip(RemoveAll(parsed, first));
      assert first != [] ==> argument == Strip(Concat(Split(parsed, first))) by {
        if first != [] { RemoveAllIsConcatSplit(parsed, first); }
      }
      Call(b.commands[first], argument)
    else Invalid(b.prefix)
  }

  /** No character of `s` is whitespace. */
  predicate NoSpace(s: string)
  {
    forall k :: 0 <= k < |s| ==> !IsSpace(s[k])
  }

  /** The text after a command word: nothing, or a space and the argument. */
  function Tail(argument: string): string
  {
    if argument == [] then [] else [' '] + argument
  }

  /**
   * Taking off a prefix that does not occur again leaves the trimmed text
   * after it.
   */
  lemma ParsedAfterPrefix(prefix: string, rest: string)
    requires rest != [] && Trimmed(rest)
    requires prefix == [] || !Contains([' '] + rest, prefix)
    ensures Parsed(prefix, prefix + ([' '] + rest)) == rest
  {
    var command := prefix + ([' '] + rest);
    assert prefix <= command;
    if prefix != [] {
      RemoveAllLeading(prefix, [' '] + rest);
      RemoveNotContained([' '] + rest, prefix);
    } else {
      assert command == [' '] + rest;
    }
    StripAfterSpace(rest);
  }

  /** A command word alone is its own first word, and nothing is left once it is removed. */
  lemma WordAlone(word: string)
    requires ' ' !in word && word != []
    ensures FirstWord(word) == word
    ensures Strip(RemoveAll(word, word)) == []
  {
    FirstWordOf(word, []);
    RemoveAllLeading(word, []);
    assert word + [] == word;
  }

  /** Removing a word from the word, a space and an argument that does not contain it leaves the space and the argument. */
  lemma RemoveLeadingWord(word: string, argument: string)
    requires word != [] && word[0] != ' ' && !Contains(argument, word)
    ensures RemoveAll(word + ([' '] + argument), word) == [' '] + argument
  {
    RemoveAllLeading(word, [' '] + argument);
    NotInAfterSpace(argument, word);
    RemoveNotContained([' '] + argument, word);
  }

  /**
   * A command word without spaces, a space and an argument that does not
   * contain the word: the word is the first word, and what is left once it
   * is removed is the argument.
   */
  lemma WordSpaceArgument(word: string, argument: string)
    requires word != [] && ' ' !in word && word[0] != ' '
    requires argument != [] && Trimmed(argument) && !Contains(argument, word)
    ensures FirstWord(word + ([' '] + argument)) == word
    ensures Strip(RemoveAll(word + ([' '] + argument), word)) == argument
  {
    FirstWordOf(word, argument);
    RemoveLeadingWord(word, argument);
    StripAfterSpace(argument);
  }

  /**
   * A command word without spaces followed by an argument that does not
   * contain it: the word is the first word, and what is left once it is
   * removed is the argument.
   */
  lemma WordThenArgument(word: string, argument: string)
    requires word != [] && NoSpace(word)
    requires Trimmed(argument) && !Contains(argument, word)
    ensures FirstWord(word + Tail(argument)) == word
    ensures Strip(RemoveAll(word + Tail(argument), word)) == argument
  {
    assert ' ' !in word by {
      assert forall k :: 0 <= k < |word| ==> word[k] != ' ';
    }
    if argument == [] {
      assert word + Tail(argument) == word;
      WordAlone(word);
    } else {
      WordSpaceArgument(word, argument);
    }
  }

  /**
   * A command written as the prefix, a space, a command word and an
   * argument reaches that word's method with that argument, provided the
   * prefix does not occur again after its first place and the word does not
   * occur in the argument.
   */
  lemma HandleWord(b: BotCommand, word: string, argument: string)
    requires word in b.commands && word != [] && NoSpace(word)
    requires Trimmed(argument) && !Contains(argument, word)
    requires b.prefix == [] || !Contains([' '] + (word + Tail(argument)), b.prefix)
    ensures Handle(b, b.prefix + ([' '] + (word + Tail(argument)))) == Call(b.commands[word], argument)
  {
    var rest := word + Tail(argument);
    assert rest[0] == word[0];
    assert rest[|rest| - 1] == if argument == [] then word[|word| - 1] else argument[|argument| - 1];
    ParsedAfterPrefix(b.prefix, rest);
    WordThenArgument(word, argument);
  }

  /** A word that does not start with a space and is not in `s` is not in `s` after a leading space. */
  lemma NotInAfterSpace(s: string, word: string)
    requires word != [] && word[0] != ' ' && !Contains(s, word)
    ensures !Contains([' '] + s, word)
  {
    var t := [' '] + s;
    forall j | 0 <= j <= |t|
      ensures !OccursAt(t, word, j)
    {
      if j > 0 && j + |word| <= |t| {
        assert t[j..j + |word|] == s[j - 1..j - 1 + |word|];
        assert !OccursAt(s, word, j - 1);
      }
    }
  }

  /**
   * `handle` removes every occurrence of the prefix, and then of the command
   * word, not only the leading one: the method receives the pieces between
   * the occurrences of the word, glued together, from the pieces between the
   * occurrences of the prefix, glued together. A command that does not start
   * with the prefix (the hat object receives every command that no other
   * prefix claims) keeps its prefix occurrences, and only the word is removed.
   */
  lemma HandleRemovesEveryOccurrence(b: BotCommand, command: string)
    requires b.prefix != []
    ensures var parsed := if b.prefix <= command then Strip(Concat(Split(command, b.prefix))) else command;
      && Parsed(b.prefix, command) == parsed
      && var first := FirstWord(parsed);
      && (Handle(b, command).Call? <==> first in b.commands)
      && (first != [] && first in b.commands ==>
            Handle(b, command).argument == Strip(Concat(Split(parsed, first))))
  {
    if b.prefix <= command {
      RemoveAllIsConcatSplit(command, b.prefix);
    }
  }
}
