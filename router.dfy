/**
 * The two pure steps of run_bot.py between Slack and the command objects:
 * `parse_slack_output` picks the first event that mentions the bot and cuts
 * the command out of its text, and `handle_command` hands the command to
 * the object registered under the first prefix it starts with.
 */
module Router {
  import opened Wrappers
  import opened Search
  import opened Text
  import opened Dispatch

  /** The command objects `load_commands` registers. */
  datatype Bot = HatBot | ExampleBot

  /** The prefixes `handle_command` tries, in order. */
  const Prefixes: seq<string> := ["hat", "example", ""]

  /** The command object registered under each prefix. */
  const PrefixBots: map<string, Bot> := map["hat" := HatBot, "example" := ExampleBot, "" := HatBot]

  /** The index of the first prefix that `command` starts with. */
  function RoutePrefix(command: string): (r: Option<nat>)
    ensures r.Some? ==> r.value < |Prefixes| && Prefixes[r.value] <= command
    ensures r.Some? ==> forall j :: 0 <= j < r.value ==> !(Prefixes[j] <= command)
    ensures r.None? <==> forall j :: 0 <= j < |Prefixes| ==> !(Prefixes[j] <= command)
  {
    IndexWhere(Prefixes, (p: string) => p <= command)
  }

  /** What `handle_command` does with a command. */
  datatype Response =
    | Handled(bot: Bot, outcome: Outcome)   // the object's `handle` answered
    | NotSure                               // "Not sure what you mean. Use the *help* command"

  /**
   * `handle_command`: the command goes to the `handle` of the object
   * registered under the first matching prefix. `hat` and `example` are the
   * two command objects.
   */
  function HandleCommand(hat: BotCommand, example: BotCommand, command: string): (r: Response)
    ensures r.Handled? ==> r.outcome == Handle(if r.bot == HatBot then hat else example, command)
  {
    match RoutePrefix(command)
    case None => NotSure
    case Some(i) =>
      var bot := PrefixBots[Prefixes[i]];
      Handled(bot, Handle(if bot == HatBot then hat else example, command))
  }

  /**
   * Every command is handled, since the empty prefix matches anything: a
   * command starting with `example` (and not with `hat`) goes to the example
   * object, and every other one to the hat object.
   */
  lemma EveryCommandRouted(hat: BotCommand, example: BotCommand, command: string)
    ensures HandleCommand(hat, example, command).Handled?
    ensures var r := HandleCommand(hat, example, command);
      && (r.bot == ExampleBot <==> !("hat" <= command) && "example" <= command)
      && (r.bot == ExampleBot ==> r.outcome == Handle(example, command))
      && (r.bot == HatBot ==> r.outcome == Handle(hat, command))
  {
    assert Prefixes[2] <= command;
    var i := RoutePrefix(command).value;
    assert i == 0 <==> "hat" <= command;
    assert i == 1 <==> !("hat" <= command) && "example" <= command;
  }

  /** A Slack event: `text`, `channel` and `user` are each present or missing. */
  datatype Event = Event(text: Option<string>, channel: Option<string>, user: Option<string>)

  /** What `parse_slack_output` returns. */
  datatype Parse =
    | Command(command: string, channel: string, user: string)
    | NoCommand                          // `(None, None, None)`
    | MissingField                       // the mentioning event lacks `channel` or `user`: a KeyError

  /** `AT_BOT`: how a message mentions the bot. */
  function AtBot(botId: string): (m: string)
    ensures |m| == |botId| + 3
    ensures m[..2] == "<@" && m[2..|m| - 1] == botId && m[|m| - 1] == '>'
  {
    "<@" + botId + ">"
  }

  /** The event has a text that mentions the bot. */
  predicate MentionsBot(e: Event, botId: string)
    ensures MentionsBot(e, botId) <==>
      e.text.Some? && exists i :: 0 <= i <= |e.text.value| && OccursAt(e.text.value, AtBot(botId), i)
  {
    e.text.Some? && Contains(e.text.value, AtBot(botId))
  }

  /** The first event that mentions the bot. */
  function FirstMention(events: seq<Event>, botId: string): (r: Option<nat>)
    ensures r.Some? ==> r.value < |events| && MentionsBot(events[r.value], botId)
    ensures r.Some? ==> forall j :: 0 <= j < r.value ==> !MentionsBot(events[j], botId)
    ensures r.None? <==> forall j :: 0 <= j < |events| ==> !MentionsBot(events[j], botId)
  {
    IndexWhere(events, (e: Event) => MentionsBot(e, botId))
  }

  /**
   * `parse_slack_output`: the first event that mentions the bot, its text
   * cut at the mentions, the piece after the first mention trimmed and
   * lower-cased. A missing or empty list of events is `[]`.
   */
  function ParseSlackOutput(events: seq<Event>, botId: string): (r: Parse)
    ensures r.NoCommand? <==> forall j :: 0 <= j < |events| ==> !MentionsBot(events[j], botId)
    ensures r.MissingField? <==>
      FirstMention(events, botId).Some?
      && (events[FirstMention(events, botId).value].channel.None?
          || events[FirstMention(events, botId).value].user.None?)
  {
    match FirstMention(events, botId)
    case None => NoCommand
    case Some(i) =>
      var e := events[i];
      if e.channel.None? || e.user.None? then MissingField
      else Command(Lower(Strip(Split(e.text.value, AtBot(botId))[1])), e.channel.value, e.user.value)
  }

  /** The text after the first occurrence of `sep`, up to the next one or the end. */
  function AfterFirst(text: string, sep: string): (r: string)
    requires Contains(text, sep)
  {
    var rest := text[IndexOf(text, sep).value + |sep|..];
    match IndexOf(rest, sep)
    case None => rest
    case Some(j) => rest[..j]
  }

  /**
   * The command is read from the first event that mentions the bot: it is
   * the text between the first mention and the next one (or the end of the
   * text), which holds no mention, trimmed and lower-cased; the channel and
   * the user are that event's.
   */
  lemma ParsedCommand(events: seq<Event>, botId: string)
    ensures var r := ParseSlackOutput(events, botId);
      r.Command? ==>
        var i := FirstMention(events, botId).value;
        var piece := AfterFirst(events[i].text.value, AtBot(botId));
        && events[i].channel == Some(r.channel)
        && events[i].user == Some(r.user)
        && r.command == Lower(Strip(piece))
        && !Contains(piece, AtBot(botId))
  {
    if FirstMention(events, botId).Some? {
      var e := events[FirstMention(events, botId).value];
      SplitSecond(e.text.value, AtBot(botId));
      SplitPiecesFree(e.text.value, AtBot(botId), 1);
    }
  }

  /** What one turn of the main loop does with a batch of events. */
  datatype Turn =
    | Idle                        // nothing to handle; the loop sleeps and reads again
    | Respond(response: Response) // `handle_command` ran on the parsed command
    | Stopped                     // `parse_slack_output` raised KeyError, which ends the loop and the bot

  /**
   * One turn of the main loop: the parsed command is handed on only when the
   * command, the channel and the user are all non-empty
   * (`all([command, channel, user])`); a mentioning event without a channel
   * or a user stops the bot.
   */
  function Poll(events: seq<Event>, botId: string, hat: BotCommand, example: BotCommand): (r: Turn)
    ensures r.Stopped? <==>
      FirstMention(events, botId).Some?
      && (events[FirstMention(events, botId).value].channel.None?
          || events[FirstMention(events, botId).value].user.None?)
    ensures r.Respond? <==>
      var p := ParseSlackOutput(events, botId);
      p.Command? && p.command != [] && p.channel != [] && p.user != []
    ensures r.Respond? ==> exists j :: 0 <= j < |events| && MentionsBot(events[j], botId)
    ensures r.Respond? ==>
      && r.response.Handled?
      && r.response == HandleCommand(hat, example, ParseSlackOutput(events, botId).command)
    ensures (forall j :: 0 <= j < |events| ==> !MentionsBot(events[j], botId)) ==> r.Idle?
  {
    match ParseSlackOutput(events, botId)
    case Command(command, channel, user) =>
      if command != [] && channel != [] && user != [] then
        EveryCommandRouted(hat, example, command);
        Respond(HandleCommand(hat, example, command))
      else Idle
    case NoCommand => Idle
    case MissingField => Stopped
  }

  /** A message that is only a mention of the bot, with nothing after it, is ignored. */
  lemma BareMentionIgnored(botId: string, channel: string, user: string, hat: BotCommand, example: BotCommand)
    ensures Poll([Event(Some(AtBot(botId)), Some(channel), Some(user))], botId, hat, example).Idle?
  {
    var m := AtBot(botId);
    var e := Event(Some(m), Some(channel), Some(user));
    assert OccursAt(m, m, 0);
    assert FirstMention([e], botId) == Some(0);
    SplitSecond(m, m);
    assert IndexOf(m, m) == Some(0);
    assert m[|m|..] == [];
  }
}
