# The Hat Man, modelled in Dafny

The Hat Man is a Slack bot that arbitrates one shared token, "the hat". Whoever
holds the hat may deploy. Other users wait for it in a first-come queue. The
holder may also let other users join their "pool", and those users inherit the
hat in join order before the queue is consulted. The store keeps three
interval logs:

- HatLog: who held the hat, from when, until when;
- HatQueue: who waited;
- HatPool: who pooled under which holder.

A row is active while its end time is empty.

This project models the core of the bot and proves properties of it:

- the hat commands of `bot/commands/hat.py`: `on`, `off`, `force off`,
  `queue`, `dequeue`, `pool`, `unpool`, `tip`, `memeify`, and the helpers
  they use;
- the command dispatcher of `bot/commands/base.py`;
- the parsing and prefix routing of `run_bot.py`.

Files:

- `wrappers.dfy` (`Wrappers`): `Option`.
- `search.dfy` (`Search`): first and last match, and counting, over
  sequences. These are the shapes of the store's `select … .get()` and
  `.count()` queries.
- `text.dfy` (`Text`): the Python string operations the bot uses. These are
  `strip()`, `lower()`/`upper()`, `startswith`, `in`, `replace(p, '')`,
  `split(sep)` and `partition(' ')`.
- `records.dfy` (`HatRecords`): the three logs as sequences of rows in
  insertion order. The file holds:
  - the store queries `hat.py` runs;
  - the bulk updates (`_give_up_hat`, `_remove_user_from_queue`,
    `_clear_hat_pool`, `_change_hat_pool_owner`);
  - the engagement counters;
  - the invariant `Consistent`. It says:
    - at most one holder;
    - chronological logs;
    - each user queued at most once and pooled at most once;
    - nobody pooled with themself;
    - every active membership follows the current holder;
    - the holder never waits in the queue.
- `steps.dfy` (`HatSteps`): each command as a pure step from the store
  before to the reply and the store after. Two kinds of lemma go with the
  steps:
  - every step keeps `Consistent`;
  - each reply means what the bot tells the user (who holds the hat, who
    inherits it, queue positions, pool order).
- `hat.dfy` (`Hat`): the class `HatCommand`. It holds the three logs and the
  tip counters as fields. Each command is a method that updates them in
  place and is proved equal to its step.
- `dispatch.dfy` (`Dispatch`): `BotCommand.__init__`, `_command_map` and
  `handle`.
- `router.dfy` (`Router`): `parse_slack_output`, the prefix loop of
  `handle_command`, and the guard of the main loop.

Conventions of the model:

- Time is an integer. Each command receives the time `now` it runs at,
  which is later than every start time already stored.
- The channel check `_check_channel` is passed as the boolean `inChannel`.
- Replies are a datatype with one constructor per message. It carries the
  message's values (durations, positions, user ids) but not its wording.

Three behaviours of the code that a reader might not expect, all modelled as
the code has them:

- When `off` hands the hat to the first pool member, it also ends that
  member's queue row (`hat.py:192`), so the new holder no longer waits.
- A user's deploy count is the number of their HatQueue rows
  (`hat.py:134-135`), not the number of times they held the hat.
- `unpool` checks for a holder before it looks for the user's membership
  (`hat.py:305-307`). While nobody holds the hat, a user who is not pooled is
  told that nobody has the hat, not that they are not in the pool.

## Model

| member | source | states |
|---|---|---|
| HatRecords.FirstActive | bot/commands/hat.py:42-48 | the index of an active row with no active row before it; none exactly when no row is active |
| HatRecords.FirstActiveIsEarliest | bot/commands/hat.py:42-48 | on a chronological log the first active row started no later than any active row (the `order_by(start_time)` of the query) |
| HatRecords.CurrentOwner | bot/commands/hat.py:42-48 | the holder's row is an active row of the log; none exactly when no row is active |
| HatRecords.CloseOwner | bot/commands/hat.py:120-127 | giving up the hat ends the active row at `now` and changes no other row; a log with no active row is unchanged; every row keeps its user and start |
| HatRecords.CloseOwnerReleases | bot/commands/hat.py:120-127 | with a single holder, nobody holds the hat once the holder's row is closed |
| HatRecords.TakeHat | bot/commands/hat.py:161-163 | a new active row on a log without a holder makes its user the single holder |
| HatRecords.QueueIndexOf | bot/commands/hat.py:79-82 | the user's active queue row; none exactly when the user has no active row |
| HatRecords.PositionIsRank | bot/commands/hat.py:79-87 | the position reported for a waiting user is their 1-based rank among active rows in arrival order |
| HatRecords.RanksAreFifo | bot/commands/hat.py:79-87 | an earlier active queue row gets a strictly smaller position |
| HatRecords.JoinAhead | bot/commands/hat.py:89-95 | a newcomer is told exactly how many users were actively waiting before them |
| HatRecords.CloseQueueEntry | bot/commands/hat.py:67-77 | leaving the queue ends the user's active row at `now` and changes no other row, keeps users and start times, never reopens a row, and changes nothing for a user not queued |
| HatRecords.CloseQueueEntryOthers | bot/commands/hat.py:67-77 | leaving the queue leaves every other user's active queue row where it was |
| HatRecords.CloseQueueEntryKeeps | bot/commands/hat.py:67-77 | leaving the queue keeps each user queued at most once and the queue chronological; the user is no longer queued and nobody becomes queued |
| HatRecords.PoolIndexOf | bot/commands/hat.py:54-65 | the user's active membership whoever owns it; none exactly when the user is not pooled (`_check_if_already_pooled`) |
| HatRecords.FirstPooled | bot/commands/hat.py:50-52 | the first active membership under the owner, in insertion order; none exactly when the owner has no pool |
| HatRecords.PooledUsers | bot/commands/hat.py:50-52 | the owner's pool is empty exactly when the owner has no active membership |
| HatRecords.PoolJoinOthers | bot/commands/hat.py:293 | a new membership leaves every other user's active membership where it was |
| HatRecords.PooledAppend | bot/commands/hat.py:293 | a new membership joins the end of its owner's pool |
| HatRecords.PooledAfterFirst | bot/commands/hat.py:187-190 | closing the oldest membership removes the head of the owner's pool and keeps the rest in order |
| HatRecords.Reowned | bot/commands/hat.py:114-117 | re-owning keeps the length and changes each active membership under `from`, and only those |
| HatRecords.ReownedMovesPool | bot/commands/hat.py:114-117 | when the new owner has no pool, the old owner's whole pool moves to them in order and the old owner keeps none |
| HatRecords.ClosedUnder | bot/commands/hat.py:108-112 | clearing a pool closes exactly the owner's active memberships and keeps every row's user and owner; the owner has no pool afterwards |
| HatRecords.HolderNotPooled | bot/commands/hat.py:280-300 | under the invariant the holder never has an active membership |
| HatRecords.Position | bot/commands/hat.py:83-84 | at most the queue's length, and zero exactly when no active row started at or before the given time; `PositionIsRank` states that it is a waiting user's rank |
| HatRecords.Ahead | bot/commands/hat.py:95 | at most the queue's length, and zero exactly when no active row started before the given time; `JoinAhead` states that it counts everyone waiting before a newcomer |
| HatRecords.UserDeployCount | bot/commands/hat.py:134-135 | the user's queue rows, active or not; zero exactly when the user never queued |
| HatRecords.UserPoolCount | bot/commands/hat.py:137-138 | the user's memberships, active or not; zero exactly when the user never pooled |
| HatRecords.DailyDeployCount | bot/commands/hat.py:129-132 | the queue rows started after the cut-off; zero exactly when none did |
| HatRecords.JoinCountsAsDeploy | bot/commands/hat.py:129-135 | joining the queue adds one deploy to that user, none to anyone else, and one to today's count |
| HatRecords.ClosingKeepsDeployCount | bot/commands/hat.py:129-135 | closing a queue row changes neither a user's deploy count nor today's count |
| HatRecords.ReownedKeepsPoolCount | bot/commands/hat.py:114-117 | re-owning memberships changes no user's pool count |
| HatRecords.ClearingKeepsPoolCount | bot/commands/hat.py:108-112 | clearing an owner's pool changes no user's pool count: rows are closed, not deleted |
| HatRecords.PoolCounts | bot/commands/hat.py:137-138 | joining a pool adds one pool to that user only; ending one membership, re-owning memberships (`off`) or clearing an owner's pool (`force`) changes no pool count |
| HatSteps.NextInQueue | bot/commands/hat.py:100-106 | the user of the first active queue row, the earliest started by `FirstActiveIsEarliest`; none exactly when nobody waits |
| HatSteps.Waited | bot/commands/hat.py:164-166 | a wait is reported exactly when the user has an active queue row, and it is `now` minus that row's start |
| HatSteps.OnStep | bot/commands/hat.py:149-168 | `on` outside the hat channel is refused; only a successful `on` changes the store, and it never touches the pool. `OnOutcome` and `OnKeeps` state the rest |
| HatSteps.OffStep | bot/commands/hat.py:170-201 | `off` outside the hat channel is refused; only a release or a hand-over changes the store, and a release with an empty pool touches only the log. `OffOutcome` and `OffKeeps` state the rest |
| HatSteps.ForceStep | bot/commands/hat.py:259-278 | `force` outside the hat channel is refused; only a forced `off` changes the store, and it never touches the queue. `ForceOutcome` and `ForceKeeps` state the rest |
| HatSteps.QueueStep | bot/commands/hat.py:220-233 | `queue` outside the hat channel is refused; only a join changes the store, and only its queue. `QueueOutcome` and `QueueKeeps` state the rest |
| HatSteps.DequeueStep | bot/commands/hat.py:235-244 | `dequeue` outside the hat channel is refused; only leaving the queue changes the store, and only its queue. `DequeueOutcome`, `DequeueTwice` and `DequeueKeeps` state the rest |
| HatSteps.PoolStep | bot/commands/hat.py:280-300 | `pool` outside the hat channel is refused; only a successful `pool` changes the store, and never its log. `PoolOutcome` and `PoolKeeps` state the rest |
| HatSteps.UnpoolStep | bot/commands/hat.py:302-315 | `unpool` outside the hat channel is refused; only a successful `unpool` changes the store, and only its pool. `UnpoolOutcome`, `UnpoolTwice` and `UnpoolKeeps` state the rest |
| HatSteps.OnKeeps | bot/commands/hat.py:149-168 | `on` keeps the store consistent |
| HatSteps.OnOutcome | bot/commands/hat.py:149-168 | `on` succeeds exactly when nobody holds the hat; then the user holds it and no longer waits, every other user's queue row stays where it was, the pool is untouched, and a wait is reported exactly when they were queued, as `now` minus their queue start. The holder is told they hold it; anyone else is refused with the holder's name and start time exactly when someone else holds it; any refusal changes nothing |
| HatSteps.OffKeeps | bot/commands/hat.py:170-201 | `off` keeps the store consistent |
| HatSteps.OffOutcome | bot/commands/hat.py:170-201 | `off` succeeds exactly for the holder; it is refused as "no holder" exactly when nobody holds the hat and with the holder's name exactly when someone else holds it. With an empty pool nobody holds the hat, queue and pool are untouched, and the next queued user is only named. Otherwise the oldest pool member holds it, is neither queued nor pooled, and inherits the rest of the pool in order, while every other user's queue row stays where it was. The time held is `now` minus the holder's start. Any refusal changes nothing |
| HatSteps.PassOnKeeps | bot/commands/hat.py:187-196 | succession seats the head of the holder's pool, keeps the store consistent, and moves the rest of the pool to the new holder |
| HatSteps.ForceKeeps | bot/commands/hat.py:259-278 | `force` keeps the store consistent |
| HatSteps.ForceOutcome | bot/commands/hat.py:259-278 | `force off` succeeds exactly when someone holds the hat; any argument other than `off` is refused as such, and `off` with nobody holding the hat is refused as "no holder". Afterwards nobody holds it, no membership is active, the queue is untouched and the next queued user is named; the time held is `now` minus the holder's start |
| HatSteps.QueueKeeps | bot/commands/hat.py:220-233 | `queue` keeps the store consistent |
| HatSteps.QueueJoinKeeps | bot/commands/hat.py:232 | a user who neither holds the hat nor waits joins the end of the queue and the store stays consistent |
| HatSteps.QueueOutcome | bot/commands/hat.py:220-233 | `queue` appends a row exactly for a user who neither holds the hat nor waits, and reports the number of users waiting before them; exactly a waiting user who does not hold the hat is told their 1-based rank and how long they have waited; the holder is refused |
| HatSteps.DequeueKeeps | bot/commands/hat.py:235-244 | `dequeue` keeps the store consistent |
| HatSteps.DequeueOutcome | bot/commands/hat.py:235-244 | `dequeue` succeeds exactly for a waiting user, and anyone else is told they are not queued; one user fewer waits, every other user's queue row is unchanged, and the wait reported is `now` minus the user's queue start |
| HatSteps.DequeueTwice | bot/commands/hat.py:235-244 | a second `dequeue` answers "not queued" and changes nothing |
| HatSteps.PoolKeeps | bot/commands/hat.py:280-300 | `pool` keeps the store consistent |
| HatSteps.PoolJoinKeeps | bot/commands/hat.py:293-298 | a new member joins the end of the holder's pool, leaves the queue, and the store stays consistent |
| HatSteps.PoolOutcome | bot/commands/hat.py:280-300 | `pool` succeeds exactly for a user other than the holder who is not pooled while someone holds the hat; it is refused as "no holder", "self" or "already pooled" exactly under those conditions. The user joins the end of the holder's pool and leaves the queue, and every other user's membership and queue row stays where it was; a wait is reported exactly when they were queued, and it is `now` minus their queue start |
| HatSteps.UnpoolKeeps | bot/commands/hat.py:302-315 | `unpool` keeps the store consistent |
| HatSteps.UnpoolOutcome | bot/commands/hat.py:302-315 | `unpool` succeeds exactly for a pooled user while someone holds the hat; it is refused as "no holder" exactly when nobody holds the hat and as "not pooled" exactly when someone does and the user has no membership. Every other user's membership is unchanged |
| HatSteps.UnpoolTwice | bot/commands/hat.py:302-315 | a second `unpool` changes nothing |
| Hat.HatCommand.constructor | bot/models.py:6-28 | a new store has empty logs and no tips, and is consistent |
| Hat.HatCommand.GiveUpHat | bot/commands/hat.py:120-127 | closes the given ownership row at `now`, returns it, and changes nothing else |
| Hat.HatCommand.RemoveUserFromQueue | bot/commands/hat.py:67-77 | closes the user's active queue row and returns it, or returns nothing when the user is not queued |
| Hat.HatCommand.ClearHatPool | bot/commands/hat.py:108-112 | ends every active membership under the owner and nothing else |
| Hat.HatCommand.ChangeHatPoolOwner | bot/commands/hat.py:114-117 | moves every active membership under `from` to `to` and nothing else |
| Hat.HatCommand.AddUserToQueue | bot/commands/hat.py:89-95 | appends an active row and returns how many users were waiting before |
| Hat.HatCommand.On | bot/commands/hat.py:149-168 | runs `on` in place: the reply and new logs are those of `OnStep`, the invariant is kept, tips untouched |
| Hat.HatCommand.Off | bot/commands/hat.py:170-201 | runs `off` in place as `OffStep` says, keeping the invariant |
| Hat.HatCommand.PassOn | bot/commands/hat.py:187-196 | ends the chosen membership, seats its member, ends their queue row, and moves the holder's pool to them |
| Hat.HatCommand.Force | bot/commands/hat.py:259-278 | runs `force` in place as `ForceStep` says, keeping the invariant |
| Hat.HatCommand.Queue | bot/commands/hat.py:220-233 | runs `queue` in place as `QueueStep` says, keeping the invariant |
| Hat.HatCommand.Dequeue | bot/commands/hat.py:235-244 | runs `dequeue` in place as `DequeueStep` says, keeping the invariant |
| Hat.HatCommand.Pool | bot/commands/hat.py:280-300 | runs `pool` in place as `PoolStep` says, keeping the invariant |
| Hat.HatCommand.Unpool | bot/commands/hat.py:302-315 | runs `unpool` in place as `UnpoolStep` says, keeping the invariant |
| Hat.HatCommand.Tip | bot/commands/hat.py:332-351 | no mention: nothing changes. A self-tip is refused unchanged, except by the one exempt user, whose self-tip is counted and still answered as a self-tip. Otherwise the target's counter (upper-cased id) grows by one and no other counter or log changes |
| Hat.CloseAngle | bot/commands/hat.py:334 | the first `>` at or after a position with no line break before it; found whenever such a `>` exists |
| Hat.MentionAt | bot/commands/hat.py:334 | the pattern `<@(.+?)>` matches at a position exactly when `<@` stands there and a `>` follows after at least one character with no line break between; the group is the shortest such text |
| Hat.MentionIndex | bot/commands/hat.py:334 | the leftmost position at or after `i` where the pattern matches; none exactly when it matches nowhere |
| Hat.TipTarget | bot/commands/hat.py:334-338 | the group of the leftmost match: a non-empty one-line id standing between `<@` and `>`, with no `>` after its first character; none exactly when the pattern matches nowhere |
| Hat.TipTargetFound | bot/commands/hat.py:334-338 | a command holding `<@`, a non-empty one-line id and `>` always names a tip target |
| Hat.Memeify | bot/commands/hat.py:356-365 | same length, same text up to case, odd positions never lower-case and even positions never upper-case |
| Text.Strip | bot/commands/base.py:22 | the infix left once whitespace is removed from both ends; it neither starts nor ends with whitespace |
| Text.Lower | run_bot.py:72 | lower-cases every ASCII letter and keeps every other character |
| Text.Upper | bot/commands/hat.py:338 | upper-cases every ASCII letter and keeps every other character, position by position |
| Text.RemoveAll | bot/commands/base.py:22 | `replace(p, '')` never lengthens the text; `RemoveAllIsConcatSplit` states what it computes |
| Text.Split | run_bot.py:72 | `split(sep)` yields at least one piece, and at least two when the separator occurs; `SplitJoin` and `SplitPiecesFree` state what the pieces are |
| Text.FirstWord | bot/commands/base.py:25 | `partition(' ')[0]`: a prefix of the text with no space, followed by a space or by the end of the text |
| Text.RemoveAllIsConcatSplit | bot/commands/base.py:22 | `replace(p, '')` equals `''.join(split(p))` |
| Text.SplitJoin | run_bot.py:72 | joining the pieces of a split with the separator gives back the text |
| Text.SplitPiecesFree | run_bot.py:72 | no piece of a split contains the separator |
| Dispatch.Exposed | bot/commands/base.py:35-37 | a class attribute becomes a command exactly when it is a function and its name is empty or does not start with `_` |
| Dispatch.CommandWord | bot/commands/base.py:37 | the method name with every underscore replaced by a space and every other character kept |
| Dispatch.LastWithWord | bot/commands/base.py:35-37 | the last exposed member with that command word; none exactly when there is none |
| Dispatch.MappedLast | bot/commands/base.py:32-41 | a word is mapped exactly when some exposed member has it, and to the last such member (later definitions overwrite earlier ones) |
| Dispatch.CommandMap | bot/commands/base.py:32-41 | the loop builds the map of exposed members under their command words, plus `help` |
| Dispatch.CommandMapKeys | bot/commands/base.py:32-41 | the keys are exactly `help` and the words of exposed members; `help` maps to `help` |
| Dispatch.NewBotCommand | bot/commands/base.py:8-10 | the given prefix or else the class default, and a command map that always holds `help` |
| Dispatch.Parsed | bot/commands/base.py:20-22 | a command starting with the prefix is trimmed once the prefix is removed; any other command is left as it is. `HandleRemovesEveryOccurrence` states what the removal does |
| Dispatch.Handle | bot/commands/base.py:19-30 | a method is called exactly when the first word of the parsed command is a command word; its argument is the parsed command with every occurrence of that word removed, trimmed, for every command whether or not it starts with the prefix; otherwise `invalid` with the object's prefix |
| Dispatch.HandleWord | bot/commands/base.py:19-30 | "prefix word argument" calls the word's method with the argument, when the prefix does not occur again and the word is not in the argument |
| Dispatch.HandleRemovesEveryOccurrence | bot/commands/base.py:19-30 | `handle` removes every occurrence of the prefix from a prefixed command and leaves any other command as it is, then removes every occurrence of the command word, not only the leading one |
| Router.RoutePrefix | run_bot.py:48-52 | the first prefix of `hat`, `example`, `` the command starts with |
| Router.HandleCommand | run_bot.py:40-58 | a handled command gets the answer of the `handle` of the object the response names; `EveryCommandRouted` states which object that is |
| Router.EveryCommandRouted | run_bot.py:33-58 | every command is handled; it goes to the example object exactly when it starts with `example` and not with `hat`, otherwise to the hat object |
| Router.AtBot | run_bot.py:19 | the mention is `<@`, the bot id, then `>` |
| Router.MentionsBot | run_bot.py:70 | an event mentions the bot exactly when it has a text and `<@`, the bot id and `>` occur somewhere in it |
| Router.FirstMention | run_bot.py:67-70 | the first event whose text mentions the bot; none exactly when none does |
| Router.ParseSlackOutput | run_bot.py:61-74 | no command exactly when no event mentions the bot; a missing-field error exactly when the first mentioning event lacks a channel or user |
| Router.ParsedCommand | run_bot.py:61-74 | the command is the mention-free text between the first mention and the next one, trimmed and lower-cased; channel and user are that event's |
| Router.Poll | run_bot.py:91-95 | one turn of the main loop: it stops the bot exactly when the first mentioning event lacks a channel or a user (the KeyError is not caught); it responds exactly when parsing yields a command with non-empty command, channel and user, and the response is the routed `handle_command`; a batch without a mention is ignored |
| Router.BareMentionIgnored | run_bot.py:92-95 | a message that is only a mention of the bot is ignored |

## Left out

- Slack: the client, user lookups and name caching (`hat.py:25-40`), posting
  replies, the real-time loop and its one-second sleep. The event list read
  from Slack is a parameter, and a missing or empty list is `[]`.
- Persistence: the peewee models are sequences of rows in insertion order.
  The store is assumed to run one command at a time, so concurrency is not
  modelled.
- Time:
  - the clock is the parameter `now`, one value per command, although the
    code reads the clock more than once within `on`, `off` and `force`;
  - `parse()` of stored times is not modelled;
  - the US/Eastern midnight cut-off of `_daily_deploy_count` is the
    parameter `cutoff`.
- Pool order: pool rows carry no start time, and the query behind
  `pooled_users[0]` (`hat.py:50-52`) has no `order_by`, so the code leaves the
  order of a pool to the database. The model fixes it to insertion order:
  the "oldest pool member" who inherits the hat is the first active
  membership inserted.
- The wording of replies is not modelled; replies are datatype values.
- Not modelled: `who`, `queued`, `stats`, `info`, `help`, `facts` and `gif`,
  which only read or format. The counters behind `stats` and `info` are
  modelled (`UserDeployCount`, `UserPoolCount`, `DailyDeployCount`).
- `bless` (`hat.py:353-354`) is `tip` with a suffix on the reply, so it
  changes the tip counters exactly as `Hat.HatCommand.Tip` does. It is not a
  member of its own.
- `_check_channel` compares with a configured channel id. It is the boolean
  `inChannel`.
- Text.Lower: `lower()` and `upper()` map only ASCII letters. Python's
  Unicode case mapping, which can change a string's length, is not
  modelled.
- Dispatch.Handle: handlers are named by their attribute name. What a
  handler returns, and the "Not sure what you mean" reply `handle_command`
  gives when a handler returns nothing, are not linked to dispatch.
- Class attributes and `DEFAULT_COMMAND_PREFIX` come in as parameters of
  `Dispatch.NewBotCommand`. The reflection over `cls.__dict__` is not
  modelled.
- `the-hat-man.py`, `print_channel_id.py`, `bot/settings.py` and the example
  command class are not part of this model.
