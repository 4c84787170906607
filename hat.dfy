/**
 * The hat commands of bot/commands/hat.py as the bot runs them: who may take
 * the hat, who waits for it, who inherits it, and the tip counter.
 *
 * `HatCommand` holds the three interval logs (ownership, queue, pool) and the
 * tip counters that the store keeps for it. Every command is one atomic step:
 * it reads the logs, checks, and updates them, and is proved to do what the
 * matching step function of `HatSteps` says. `now` is the time the command
 * runs at, later than every time stored so far; `inChannel` is the outcome of
 * the channel check.
 */
module Hat {
  import opened Wrappers
  import opened Text
  import opened HatRecords
  import opened HatSteps

  /** The one user id the tip command lets tip themself. */
  const SelfTipper: UserId := "U41TGMU3G"

  class HatCommand {
    var log: seq<Interval>
    var queue: seq<Interval>
    var pool: seq<Membership>
    var tips: map<UserId, nat>

    /** The three logs as one value. */
    function State(): Store
      reads this
    {
      Store(log, queue, pool)
    }

    ghost predicate Valid()
      reads this
    {
      State().Valid()
    }

    /** `now` is later than every start time stored so far. */
    ghost predicate ClockAfter(now: int)
      reads this
    {
      State().Before(now)
    }

    /** A fresh store: nobody holds the hat, waits or pools, and nobody has been tipped. */
    constructor ()
      ensures Valid()
      ensures log == [] && queue == [] && pool == [] && tips == map[]
    {
      log, queue, pool, tips := [], [], [], map[];
    }

    /** The user's tip counter; a user without a profile yet has 0. */
    function TipCount(user: UserId): nat
      reads this
    {
      if user in tips then tips[user] else 0
    }

    /** `_give_up_hat`: closes ownership row `i` at `now` and returns it. */
    method GiveUpHat(i: nat, now: int) returns (entry: Interval)
      requires i < |log|
      modifies this
      ensures log == old(log)[i := old(log)[i].(end := Some(now))]
      ensures entry == log[i]
      ensures queue == old(queue) && pool == old(pool) && tips == old(tips)
    {
      entry := log[i].(end := Some(now));
      log := log[i := entry];
    }

    /** `_remove_user_from_queue`: closes the user's active queue row, if any, and returns it. */
    method RemoveUserFromQueue(user: UserId, now: int) returns (entry: Option<Interval>)
      modifies this
      ensures queue == CloseQueueEntry(old(queue), user, now)
      ensures old(QueueIndexOf(queue, user)).None? ==> entry.None?
      ensures old(QueueIndexOf(queue, user)).Some? ==>
        entry == Some(old(queue)[old(QueueIndexOf(queue, user)).value].(end := Some(now)))
      ensures log == old(log) && pool == old(pool) && tips == old(tips)
    {
      var k := QueueIndexOf(queue, user);
      if k.None? {
        return None;
      }
      var closed := queue[k.value].(end := Some(now));
      queue := queue[k.value := closed];
      entry := Some(closed);
    }

    /** `_clear_hat_pool`: ends every active membership under `owner` at `now`. */
    method ClearHatPool(owner: UserId, now: int)
      modifies this
      ensures pool == ClosedUnder(old(pool), owner, now)
      ensures log == old(log) && queue == old(queue) && tips == old(tips)
    {
      pool := ClosedUnder(pool, owner, now);
    }

    /** `_change_hat_pool_owner`: every active membership under `from` now follows `to`. */
    method ChangeHatPoolOwner(from: UserId, to: UserId)
      modifies this
      ensures pool == Reowned(old(pool), from, to)
      ensures log == old(log) && queue == old(queue) && tips == old(tips)
    {
      pool := Reowned(pool, from, to);
    }

    /** `_add_user_to_queue`: appends an active row and answers how many active rows started earlier. */
    method AddUserToQueue(user: UserId, now: int) returns (ahead: nat)
      requires StartedBefore(queue, now)
      modifies this
      ensures queue == old(queue) + [Interval(user, now, None)]
      ensures ahead == ActiveCount(old(queue))
      ensures log == old(log) && pool == old(pool) && tips == old(tips)
    {
      JoinAhead(queue, user, now);
      queue := queue + [Interval(user, now, None)];
      ahead := Ahead(queue, now);
    }

    /** `on`: take the hat if nobody holds it, leaving the queue if the user was in it. */
    method On(inChannel: bool, user: UserId, now: int) returns (r: Reply)
      requires Valid() && ClockAfter(now)
      modifies this
      ensures Valid()
      ensures tips == old(tips)
      ensures (r, State()) == OnStep(old(State()), inChannel, user, now)
    {
      ghost var s := State();
      OnKeeps(s, inChannel, user, now);
      if !inChannel {
        return WrongChannel;
      }
      var owner := CurrentOwner(log);
      if owner.Some? {
        if user == owner.value.user {
          return AlreadyHolder;
        }
        return HeldBy(owner.value.user, owner.value.start);
      }
      log := log + [Interval(user, now, None)];
      var entry := RemoveUserFromQueue(user, now);
      r := Acquired(if entry.Some? then Some(now - entry.value.start) else None);
    }

    /**
     * `off`: the holder gives the hat up. With an empty pool nobody holds it
     * afterwards and the next queued user is only named; otherwise the oldest
     * pool member takes it, leaves the pool and the queue, and the rest of the
     * pool follows them.
     */
    method Off(inChannel: bool, user: UserId, now: int) returns (r: Reply)
      requires Valid() && ClockAfter(now)
      modifies this
      ensures Valid()
      ensures tips == old(tips)
      ensures (r, State()) == OffStep(old(State()), inChannel, user, now)
    {
      ghost var s := State();
      OffKeeps(s, inChannel, user, now);
      if !inChannel {
        r := WrongChannel;
      } else {
        var i := FirstActive(log);
        if i.None? {
          r := NoHolder;
        } else if log[i.value].user != user {
          r := HeldBy(log[i.value].user, log[i.value].start);
        } else {
          var first := FirstPooled(pool, user);
          var owner := GiveUpHat(i.value, now);
          assert log == CloseOwner(s.log, now);
          if first.None? {
            r := Released(now - owner.start, NextInQueue(queue));
          } else {
            var successor := PassOn(first.value, user, now);
            r := PassedOn(now - owner.start, successor);
          }
        }
      }
    }

    /**
     * The rest of `off` when the holder's pool is not empty: membership `k`
     * ends, its member takes the hat and leaves the queue, and the holder's
     * remaining members follow the new holder (`_change_hat_pool_owner`).
     */
    method PassOn(k: nat, holder: UserId, now: int) returns (successor: UserId)
      requires k < |pool|
      modifies this
      ensures successor == old(pool)[k].user
      ensures log == old(log) + [Interval(successor, now, None)]
      ensures queue == CloseQueueEntry(old(queue), successor, now)
      ensures pool == Reowned(old(pool)[k := old(pool)[k].(end := Some(now))], holder, successor)
      ensures tips == old(tips)
    {
      successor := pool[k].user;
      pool := pool[k := pool[k].(end := Some(now))];
      log := log + [Interval(successor, now, None)];
      var _ := RemoveUserFromQueue(successor, now);
      ChangeHatPoolOwner(holder, successor);
    }

    /**
     * `force`: with the argument "off", takes the hat from whoever holds it
     * and ends every membership of their pool; nobody is seated and the queue
     * is only consulted for the next user's name.
     */
    method Force(inChannel: bool, command: string, now: int) returns (r: Reply)
      requires Valid()
      modifies this
      ensures Valid()
      ensures tips == old(tips)
      ensures (r, State()) == ForceStep(old(State()), inChannel, command, now)
    {
      ghost var s := State();
      ForceKeeps(s, inChannel, command, now);
      if !inChannel {
        return WrongChannel;
      }
      if command != "off" {
        return NotForceOff;
      }
      var i := FirstActive(log);
      if i.None? {
        return NoHolder;
      }
      var owner := GiveUpHat(i.value, now);
      ClearHatPool(owner.user, now);
      r := ForcedOff(owner.user, now - owner.start, NextInQueue(queue));
    }

    /**
     * `queue`: join the queue. The holder is refused; a user already waiting
     * is told their position; a newcomer is told how many wait before them.
     */
    method Queue(inChannel: bool, user: UserId, now: int) returns (r: Reply)
      requires Valid() && ClockAfter(now)
      modifies this
      ensures Valid()
      ensures tips == old(tips)
      ensures (r, State()) == QueueStep(old(State()), inChannel, user, now)
    {
      ghost var s := State();
      QueueKeeps(s, inChannel, user, now);
      if !inChannel {
        return WrongChannel;
      }
      var k := QueueIndexOf(queue, user);
      var position := if k.Some? then Position(queue, queue[k.value].start) else 0;
      var owner := CurrentOwner(log);
      if owner.Some? && owner.value.user == user {
        return HolderCannotQueue;
      }
      if k.Some? {
        return AlreadyQueued(position, now - queue[k.value].start);
      }
      var ahead := AddUserToQueue(user, now);
      r := Joined(ahead);
      JoinAhead(s.queue, user, now);
    }

    /** `dequeue`: leave the queue. */
    method Dequeue(inChannel: bool, user: UserId, now: int) returns (r: Reply)
      requires Valid()
      modifies this
      ensures Valid()
      ensures tips == old(tips)
      ensures (r, State()) == DequeueStep(old(State()), inChannel, user, now)
    {
      ghost var s := State();
      DequeueKeeps(s, inChannel, user, now);
      if !inChannel {
        return WrongChannel;
      }
      var k := QueueIndexOf(queue, user);
      if k.None? {
        return NotQueued;
      }
      var entry := RemoveUserFromQueue(user, now);
      r := LeftQueue(now - entry.value.start);
    }

    /**
     * `pool`: join the current holder's pool, leaving the queue. Refused when
     * nobody holds the hat, for the holder, and for a user already pooled.
     */
    method Pool(inChannel: bool, user: UserId, now: int) returns (r: Reply)
      requires Valid()
      modifies this
      ensures Valid()
      ensures tips == old(tips)
      ensures (r, State()) == PoolStep(old(State()), inChannel, user, now)
    {
      ghost var s := State();
      PoolKeeps(s, inChannel, user, now);
      if !inChannel {
        return WrongChannel;
      }
      var owner := CurrentOwner(log);
      if owner.None? {
        return NoHolder;
      }
      var holder := owner.value.user;
      if holder == user {
        return SelfPool;
      }
      if PoolIndexOf(pool, user).Some? {
        return AlreadyPooled;
      }
      pool := pool + [Membership(holder, user, None)];
      var entry := RemoveUserFromQueue(user, now);
      r := Pooling(holder, if entry.Some? then Some(now - entry.value.start) else None);
    }

    /**
     * `unpool`: leave the pool. The membership is closed whoever owns it;
     * refused when nobody holds the hat or the user is not pooled.
     */
    method Unpool(inChannel: bool, user: UserId, now: int) returns (r: Reply)
      requires Valid()
      modifies this
      ensures Valid()
      ensures tips == old(tips)
      ensures (r, State()) == UnpoolStep(old(State()), inChannel, user, now)
    {
      ghost var s := State();
      UnpoolKeeps(s, inChannel, user, now);
      if !inChannel {
        return WrongChannel;
      }
      if CurrentOwner(log).None? {
        return NoHolder;
      }
      var k := PoolIndexOf(pool, user);
      if k.None? {
        return NotPooled;
      }
      pool := pool[k.value := pool[k.value].(end := Some(now))];
      r := Unpooled;
    }

    /**
     * `tip`: add one to the counter of the user mentioned in the command.
     * Self-tips are refused, except for `SelfTipper`, whose self-tip is
     * counted and still answered as a self-tip.
     */
    method Tip(command: string, user: UserId) returns (r: Reply)
      modifies this
      ensures log == old(log) && queue == old(queue) && pool == old(pool)
      ensures TipTarget(command).None? ==> r == NoTipTarget && tips == old(tips)
      ensures TipTarget(command).Some? ==>
        var target := Upper(TipTarget(command).value);
        if target == user && user != SelfTipper then
          r == SelfTip && tips == old(tips)
        else
          && tips == old(tips)[target := old(TipCount(target)) + 1]
          && TipCount(target) == old(TipCount(target)) + 1
          && r == (if target == user then SelfTip else Tipped(user, target))
    {
      var mention := TipTarget(command);
      if mention.None? {
        return NoTipTarget;
      }
      var target := Upper(mention.value);
      if target == user && user != SelfTipper {
        return SelfTip;
      }
      tips := tips[target := TipCount(target) + 1];
      if user == SelfTipper && target == user {
        r := SelfTip;
      } else {
        r := Tipped(user, target);
      }
    }
  }

  // -----------------------------------------------------------------------
  // `re.search('<@(.+?)>', command).group(1)`

  /** The first '>' at or after `j`, provided no line break comes before it. */
  function CloseAngle(s: string, j: nat): (r: Option<nat>)
    ensures r.Some? ==> j <= r.value < |s| && s[r.value] == '>'
    ensures r.Some? ==> forall k :: j <= k < r.value ==> s[k] != '>' && s[k] != '\n'
    ensures forall k :: j <= k < |s| && s[k] == '>' && (forall m :: j <= m < k ==> s[m] != '\n') ==> r.Some?
    decreases |s| - j
  {
    if j >= |s| then None
    else if s[j] == '>' then Some(j)
    else if s[j] == '\n' then None
    else CloseAngle(s, j + 1)
  }

  /**
   * The lazy group `(.+?)` of a match that starts at index `i`, if the
   * pattern matches there: it does exactly when `<@` stands at `i` and a `>`
   * follows after at least one character, with no line break in between.
   */
  function MentionAt(s: string, i: nat): (r: Option<string>)
    ensures r.Some? ==> |r.value| >= 1 && OccursAt(s, "<@" + r.value + ">", i)
    ensures r.Some? ==> '\n' !in r.value && '>' !in r.value[1..]
    ensures r.Some? ==> OccursAt(s, "<@", i)
    ensures i + 2 <= |s| && s[i] == '<' && s[i + 1] == '@' ==>
      forall k :: i + 3 <= k < |s| && s[k] == '>' && (forall m :: i + 2 <= m < k ==> s[m] != '\n') ==> r.Some?
  {
    if i + 3 <= |s| && s[i] == '<' && s[i + 1] == '@' && s[i + 2] != '\n' then
      match CloseAngle(s, i + 3)
      case None => None
      case Some(k) =>
        var v := s[i + 2..k];
        assert s[i..k + 1] == "<@" + v + ">";
        assert s[i..i + 2] == "<@";
        Some(v)
    else None
  }

  /** Where the leftmost match at or after index `i` starts. */
  function MentionIndex(s: string, i: nat): (r: Option<nat>)
    ensures r.Some? ==> i <= r.value < |s| && MentionAt(s, r.value).Some?
    ensures r.Some? ==> forall l :: i <= l < r.value ==> MentionAt(s, l).None?
    ensures r.None? <==> forall j :: i <= j < |s| ==> MentionAt(s, j).None?
    decreases |s| - i
  {
    if i >= |s| then None
    else if MentionAt(s, i).Some? then Some(i)
    else MentionIndex(s, i + 1)
  }

  /**
   * The user mentioned by a tip command (`re.search('<@(.+?)>', command)`):
   * the group of the match that starts leftmost, found whenever the command
   * has a match.
   */
  function TipTarget(command: string): (r: Option<string>)
    ensures r.Some? ==> |r.value| >= 1 && Contains(command, "<@" + r.value + ">")
    ensures r.Some? ==> '\n' !in r.value && '>' !in r.value[1..]
    ensures !Contains(command, "<@") ==> r.None?
    ensures r.None? <==> forall i :: 0 <= i < |command| ==> MentionAt(command, i).None?
    ensures r.Some? ==>
      exists i :: 0 <= i < |command| && MentionAt(command, i) == r && forall j :: 0 <= j < i ==> MentionAt(command, j).None?
  {
    match MentionIndex(command, 0)
    case None =>
      assert forall i :: 0 <= i < |command| ==> MentionAt(command, i).None?;
      None
    case Some(i) =>
      MentionAt(command, i)
  }

  /** A command that holds `<@`, a one-line id and `>` always names a tip target. */
  lemma TipTargetFound(command: string, id: string, i: nat)
    requires |id| >= 1 && '\n' !in id
    requires OccursAt(command, "<@" + id + ">", i)
    ensures TipTarget(command).Some?
  {
    var pat := "<@" + id + ">";
    var k := i + 2 + |id|;
    assert command[i..i + |pat|] == pat;
    assert command[i] == pat[0] && command[i + 1] == pat[1] && command[k] == pat[|pat| - 1];
    forall m | i + 2 <= m < k
      ensures command[m] != '\n'
    {
      assert command[m] == pat[m - i] == id[m - i - 2];
    }
    assert MentionAt(command, i).Some?;
  }

  // -----------------------------------------------------------------------
  // `memeify`

  /**
   * `memeify`: the command lower-cased, then every character at an odd index
   * upper-cased.
   */
  method Memeify(command: string) returns (r: string)
    ensures |r| == |command|
    ensures Lower(r) == Lower(command)
    ensures forall k :: 0 <= k < |r| && k % 2 == 1 ==> !IsAsciiLower(r[k])
    ensures forall k :: 0 <= k < |r| && k % 2 == 0 ==> !IsAsciiUpper(r[k])
  {
    var lower := Lower(command);
    var memified: string := [];
    var index := 0;
    while index < |lower|
      invariant 0 <= index <= |lower|
      invariant |memified| == index
      invariant forall k :: 0 <= k < index ==> LowerChar(memified[k]) == lower[k]
      invariant forall k :: 0 <= k < index && k % 2 == 1 ==> !IsAsciiLower(memified[k])
      invariant forall k :: 0 <= k < index && k % 2 == 0 ==> !IsAsciiUpper(memified[k])
    {
      var letter := lower[index];
      if index % 2 == 1 {
        LowerUpper(letter);
        memified := memified + [UpperChar(letter)];
      } else {
        memified := memified + [letter];
      }
      index := index + 1;
    }
    r := memified;
  }
}
