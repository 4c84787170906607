/**
 * What each hat command of bot/commands/hat.py does to the store, as a pure
 * step from the store before the command to the answer and the store after.
 *
 * The three logs are one `Store`. A step takes the outcome of the channel
 * check (`inChannel`), the calling user and the time `now` the command runs
 * at. The branches follow the source's order of checks. The `HatCommand`
 * class in hat.dfy runs the same steps imperatively and is proved to agree
 * with these functions. The lemmas below say what each answer means and
 * that every step keeps the store `Consistent`.
 */
module HatSteps {
  import opened Wrappers
  import opened Search
  import opened HatRecords

  /** Which answer a command gives; the wording of the messages is not modelled. */
  datatype Reply =
    | WrongChannel                                      // the command was used outside the hat channel
    | NoHolder                                          // nobody holds the hat
    | AlreadyHolder                                     // `on` by the holder
    | HeldBy(holder: UserId, since: int)                // `on` or `off` by someone else than the holder
    | Acquired(waited: Option<int>)                     // `on` succeeded; how long the user had queued
    | Released(held: int, next: Option<UserId>)         // `off` with an empty pool; who is next in the queue
    | PassedOn(held: int, successor: UserId)            // `off` handed the hat to the oldest pool member
    | ForcedOff(holder: UserId, held: int, next: Option<UserId>)
    | NotForceOff                                       // `force` with an argument other than "off"
    | HolderCannotQueue
    | AlreadyQueued(position: nat, queuedFor: int)
    | Joined(ahead: nat)                                // how many users wait before the newcomer
    | NotQueued
    | LeftQueue(queuedFor: int)
    | SelfPool
    | AlreadyPooled
    | Pooling(owner: UserId, waited: Option<int>)
    | Unpooled
    | NotPooled
    | NoTipTarget
    | SelfTip
    | Tipped(tipper: UserId, target: UserId)

  /** The three logs the hat commands read and write. */
  datatype Store = Store(log: seq<Interval>, queue: seq<Interval>, pool: seq<Membership>)
  {
    ghost predicate Valid()
    {
      Consistent(log, queue, pool)
    }

    /** `now` is later than every start time stored so far. */
    ghost predicate Before(now: int)
    {
      StartedBefore(log, now) && StartedBefore(queue, now)
    }
  }

  /**
   * `_get_next_user_in_queue`: the user of the first active queue row, which
   * on a chronological queue is the one that started earliest
   * (`FirstActiveIsEarliest`).
   */
  function NextInQueue(queue: seq<Interval>): (r: Option<UserId>)
    ensures r.None? <==> ActiveCount(queue) == 0
    ensures r.Some? ==> FirstActive(queue).Some? && r.value == queue[FirstActive(queue).value].user
  {
    match FirstActive(queue)
    case None => None
    case Some(k) => Some(queue[k].user)
  }

  /** How long the user has waited in the queue at `now`, if they are in it. */
  function Waited(queue: seq<Interval>, user: UserId, now: int): (r: Option<int>)
    ensures r.Some? <==> QueueIndexOf(queue, user).Some?
    ensures r.Some? ==> r.value == now - queue[QueueIndexOf(queue, user).value].start
  {
    match QueueIndexOf(queue, user)
    case None => None
    case Some(k) => Some(now - queue[k].start)
  }

  // ---------------------------------------------------------------------
  // The steps

  /** `on`: take the hat if nobody holds it, leaving the queue. */
  function OnStep(s: Store, inChannel: bool, user: UserId, now: int): (r: (Reply, Store))
    ensures r.0 == WrongChannel <==> !inChannel
    ensures !r.0.Acquired? ==> r.1 == s
    ensures r.1.pool == s.pool
  {
    if !inChannel then (WrongChannel, s)
    else
      match CurrentOwner(s.log)
      case Some(owner) =>
        (if owner.user == user then AlreadyHolder else HeldBy(owner.user, owner.start), s)
      case None =>
        (Acquired(Waited(s.queue, user, now)),
         Store(s.log + [Interval(user, now, None)], CloseQueueEntry(s.queue, user, now), s.pool))
  }

  /**
   * `off`: the holder gives the hat up. With an empty pool nobody holds it
   * afterwards; otherwise the oldest member of the pool takes it, leaves the
   * queue, and the rest of the pool follows them.
   */
  function OffStep(s: Store, inChannel: bool, user: UserId, now: int): (r: (Reply, Store))
    ensures r.0 == WrongChannel <==> !inChannel
    ensures !r.0.Released? && !r.0.PassedOn? ==> r.1 == s
    ensures r.0.Released? ==> r.1.queue == s.queue && r.1.pool == s.pool
  {
    if !inChannel then (WrongChannel, s)
    else
      match FirstActive(s.log)
      case None => (NoHolder, s)
      case Some(i) =>
        var owner := s.log[i];
        if owner.user != user then (HeldBy(owner.user, owner.start), s)
        else
          match FirstPooled(s.pool, user)
          case None =>
            (Released(now - owner.start, NextInQueue(s.queue)), s.(log := CloseOwner(s.log, now)))
          case Some(k) =>
            var successor := s.pool[k].user;
            (PassedOn(now - owner.start, successor),
             Store(CloseOwner(s.log, now) + [Interval(successor, now, None)],
                   CloseQueueEntry(s.queue, successor, now),
                   Reowned(s.pool[k := s.pool[k].(end := Some(now))], user, successor)))
  }

  /** `force off`: take the hat from whoever holds it and end their pool. */
  function ForceStep(s: Store, inChannel: bool, command: string, now: int): (r: (Reply, Store))
    ensures r.0 == WrongChannel <==> !inChannel
    ensures !r.0.ForcedOff? ==> r.1 == s
    ensures r.1.queue == s.queue
  {
    if !inChannel then (WrongChannel, s)
    else if command != "off" then (NotForceOff, s)
    else
      match FirstActive(s.log)
      case None => (NoHolder, s)
      case Some(i) =>
        var owner := s.log[i];
        (ForcedOff(owner.user, now - owner.start, NextInQueue(s.queue)),
         Store(CloseOwner(s.log, now), s.queue, ClosedUnder(s.pool, owner.user, now)))
  }

  /** `queue`: join the end of the queue, unless holding the hat or already waiting. */
  function QueueStep(s: Store, inChannel: bool, user: UserId, now: int): (r: (Reply, Store))
    ensures r.0 == WrongChannel <==> !inChannel
    ensures !r.0.Joined? ==> r.1 == s
    ensures r.1.log == s.log && r.1.pool == s.pool
  {
    if !inChannel then (WrongChannel, s)
    else if Holder(s.log) == Some(user) then (HolderCannotQueue, s)
    else
      match QueueIndexOf(s.queue, user)
      case Some(k) => (AlreadyQueued(Position(s.queue, s.queue[k].start), now - s.queue[k].start), s)
      case None =>
        var queue' := s.queue + [Interval(user, now, None)];
        (Joined(Ahead(queue', now)), s.(queue := queue'))
  }

  /** `dequeue`: leave the queue. */
  function DequeueStep(s: Store, inChannel: bool, user: UserId, now: int): (r: (Reply, Store))
    ensures r.0 == WrongChannel <==> !inChannel
    ensures !r.0.LeftQueue? ==> r.1 == s
    ensures r.1.log == s.log && r.1.pool == s.pool
  {
    if !inChannel then (WrongChannel, s)
    else
      match QueueIndexOf(s.queue, user)
      case None => (NotQueued, s)
      case Some(k) => (LeftQueue(now - s.queue[k].start), s.(queue := CloseQueueEntry(s.queue, user, now)))
  }

  /** `pool`: join the holder's pool, leaving the queue. */
  function PoolStep(s: Store, inChannel: bool, user: UserId, now: int): (r: (Reply, Store))
    ensures r.0 == WrongChannel <==> !inChannel
    ensures !r.0.Pooling? ==> r.1 == s
    ensures r.1.log == s.log
  {
    if !inChannel then (WrongChannel, s)
    else
      match CurrentOwner(s.log)
      case None => (NoHolder, s)
      case Some(owner) =>
        if owner.user == user then (SelfPool, s)
        else if PoolIndexOf(s.pool, user).Some? then (AlreadyPooled, s)
        else
          (Pooling(owner.user, Waited(s.queue, user, now)),
           Store(s.log, CloseQueueEntry(s.queue, user, now), s.pool + [Membership(owner.user, user, None)]))
  }

  /** `unpool`: leave the pool; the membership is closed whoever owns it. */
  function UnpoolStep(s: Store, inChannel: bool, user: UserId, now: int): (r: (Reply, Store))
    ensures r.0 == WrongChannel <==> !inChannel
    ensures !r.0.Unpooled? ==> r.1 == s
    ensures r.1.log == s.log && r.1.queue == s.queue
  {
    if !inChannel then (WrongChannel, s)
    else if CurrentOwner(s.log).None? then (NoHolder, s)
    else
      match PoolIndexOf(s.pool, user)
      case None => (NotPooled, s)
      case Some(k) => (Unpooled, s.(pool := s.pool[k := s.pool[k].(end := Some(now))]))
  }

  // ---------------------------------------------------------------------
  // Invariant preservation, one transition at a time

  /** Closing the holder's interval at `now` and seating `successor` keeps the log well formed. */
  lemma SeatKeeps(log: seq<Interval>, successor: UserId, now: int)
    requires SingleHolder(log) && Chronological(log) && StartedBefore(log, now)
    ensures var log' := CloseOwner(log, now) + [Interval(successor, now, None)];
      SingleHolder(log') && Chronological(log') && Holder(log') == Some(successor)
  {
    var log1 := CloseOwner(log, now);
    var log' := log1 + [Interval(successor, now, None)];
    TakeHat(log1, successor, now);
    assert forall j :: 0 <= j < |log1| ==> log'[j] == log1[j];
  }

  /**
   * The pool after `off` hands the hat to the oldest member `k` of the
   * holder's pool: `k` closed and the rest re-owned by its member.
   */
  lemma SucceedPoolKeeps(log: seq<Interval>, pool: seq<Membership>, holder: UserId, k: nat, now: int)
    requires PooledOnce(pool) && NeverSelfPooled(pool) && PoolFollowsHolder(log, pool)
    requires Holder(log) == Some(holder) && k < |pool| && pool[k].Active()
    ensures var pool' := Reowned(pool[k := pool[k].(end := Some(now))], holder, pool[k].user);
      && PooledOnce(pool') && NeverSelfPooled(pool')
      && (forall j :: 0 <= j < |pool'| && pool'[j].Active() ==> pool'[j].owner == pool[k].user)
      && PoolIndexOf(pool', pool[k].user).None?
  {
    var successor := pool[k].user;
    var closed := pool[k := pool[k].(end := Some(now))];
    var pool' := Reowned(closed, holder, successor);
    forall j | 0 <= j < |pool'| && pool'[j].Active()
      ensures j != k && pool[j].Active() && pool[j].owner == holder && pool'[j] == pool[j].(owner := successor)
    {
      assert pool'[j] == Reown(closed[j], holder, successor);
    }
  }

  /** With every active membership owned by `holder`, re-owning hands the holder's pool, minus its head, to the head. */
  lemma SucceedPoolOrder(log: seq<Interval>, pool: seq<Membership>, holder: UserId, now: int)
    requires NeverSelfPooled(pool) && PoolFollowsHolder(log, pool)
    requires Holder(log) == Some(holder) && FirstPooled(pool, holder).Some?
    ensures var k := FirstPooled(pool, holder).value;
      var pool' := Reowned(pool[k := pool[k].(end := Some(now))], holder, pool[k].user);
      && PooledUsers(pool', pool[k].user) == PooledUsers(pool, holder)[1..]
      && PooledUsers(pool', holder) == []
  {
    var k := FirstPooled(pool, holder).value;
    var successor := pool[k].user;
    var closed := pool[k := pool[k].(end := Some(now))];
    PooledAfterFirst(pool, holder, now);
    assert successor != holder;
    assert PooledUsers(closed, successor) == [] by {
      forall j | 0 <= j < |closed| && closed[j].Active()
        ensures closed[j].owner != successor
      {
        assert pool[j].Active() && pool[j].owner == holder;
      }
    }
    ReownedMovesPool(closed, holder, successor);
  }

  /**
   * `off` with a non-empty pool: the oldest member takes the hat, leaves the
   * pool and the queue, and inherits the rest of the pool in order.
   */
  lemma PassOnKeeps(log: seq<Interval>, queue: seq<Interval>, pool: seq<Membership>, holder: UserId, now: int)
    requires Consistent(log, queue, pool) && StartedBefore(log, now) && StartedBefore(queue, now)
    requires Holder(log) == Some(holder) && FirstPooled(pool, holder).Some?
    ensures
      var k := FirstPooled(pool, holder).value;
      var successor := pool[k].user;
      var pool' := Reowned(pool[k := pool[k].(end := Some(now))], holder, successor);
      var log' := CloseOwner(log, now) + [Interval(successor, now, None)];
      var queue' := CloseQueueEntry(queue, successor, now);
      && successor == PooledUsers(pool, holder)[0]
      && successor != holder
      && Consistent(log', queue', pool')
      && Holder(log') == Some(successor)
      && QueueIndexOf(queue', successor).None?
      && PoolIndexOf(pool', successor).None?
      && PooledUsers(pool', successor) == PooledUsers(pool, holder)[1..]
      && PooledUsers(pool', holder) == []
  {
    var k := FirstPooled(pool, holder).value;
    var successor := pool[k].user;
    SeatKeeps(log, successor, now);
    CloseQueueEntryKeeps(queue, successor, now);
    SucceedPoolKeeps(log, pool, holder, k, now);
    SucceedPoolOrder(log, pool, holder, now);
    PooledAfterFirst(pool, holder, now);
  }

  /** A user who neither holds the hat nor waits joins the end of the queue; the store stays consistent. */
  lemma QueueJoinKeeps(log: seq<Interval>, queue: seq<Interval>, pool: seq<Membership>, user: UserId, now: int)
    requires Consistent(log, queue, pool) && StartedBefore(queue, now)
    requires Holder(log) != Some(user) && QueueIndexOf(queue, user).None?
    ensures Consistent(log, queue + [Interval(user, now, None)], pool)
  {
    var queue' := queue + [Interval(user, now, None)];
    assert forall j :: 0 <= j < |queue| ==> queue'[j] == queue[j];
    assert queue'[|queue|].Active() && queue'[|queue|].user == user;
    assert Chronological(queue');
    assert QueuedOnce(queue');
    assert HolderNotQueued(log, queue') by {
      if Holder(log).Some? {
        var h := Holder(log).value;
        assert QueueIndexOf(queue, h).None?;
        assert forall j :: 0 <= j < |queue'| ==> !(queue'[j].Active() && queue'[j].user == h);
      }
    }
  }

  /** A new active membership of `user` under the holder keeps the pool invariants. */
  lemma PoolAppendKeeps(log: seq<Interval>, pool: seq<Membership>, holder: UserId, user: UserId)
    requires PooledOnce(pool) && NeverSelfPooled(pool) && PoolFollowsHolder(log, pool)
    requires Holder(log) == Some(holder) && holder != user && PoolIndexOf(pool, user).None?
    ensures var pool' := pool + [Membership(holder, user, None)];
      PooledOnce(pool') && NeverSelfPooled(pool') && PoolFollowsHolder(log, pool')
  {
    var pool' := pool + [Membership(holder, user, None)];
    assert forall j :: 0 <= j < |pool| ==> pool'[j] == pool[j];
  }

  /** `pool`: a new member of the holder's pool leaves the queue, and the store stays consistent. */
  lemma PoolJoinKeeps(log: seq<Interval>, queue: seq<Interval>, pool: seq<Membership>, holder: UserId, user: UserId, now: int)
    requires Consistent(log, queue, pool)
    requires Holder(log) == Some(holder) && holder != user && PoolIndexOf(pool, user).None?
    ensures
      var pool' := pool + [Membership(holder, user, None)];
      var queue' := CloseQueueEntry(queue, user, now);
      && Consistent(log, queue', pool')
      && PooledUsers(pool', holder) == PooledUsers(pool, holder) + [user]
      && QueueIndexOf(queue', user).None?
  {
    PoolAppendKeeps(log, pool, holder, user);
    PooledAppend(pool, Membership(holder, user, None), holder);
    CloseQueueEntryKeeps(queue, user, now);
  }

  // ---------------------------------------------------------------------
  // Every command keeps the store consistent

  lemma OnKeeps(s: Store, inChannel: bool, user: UserId, now: int)
    requires s.Valid() && s.Before(now)
    ensures OnStep(s, inChannel, user, now).1.Valid()
  {
    if inChannel && Holder(s.log).None? {
      var log' := s.log + [Interval(user, now, None)];
      TakeHat(s.log, user, now);
      assert forall j :: 0 <= j < |s.log| ==> log'[j] == s.log[j];
      CloseQueueEntryKeeps(s.queue, user, now);
    }
  }

  lemma OffKeeps(s: Store, inChannel: bool, user: UserId, now: int)
    requires s.Valid() && s.Before(now)
    ensures OffStep(s, inChannel, user, now).1.Valid()
  {
    if inChannel && Holder(s.log) == Some(user) {
      if FirstPooled(s.pool, user).None? {
        CloseOwnerReleases(s.log, now);
        assert Chronological(CloseOwner(s.log, now));
      } else {
        PassOnKeeps(s.log, s.queue, s.pool, user, now);
      }
    }
  }

  lemma ForceKeeps(s: Store, inChannel: bool, command: string, now: int)
    requires s.Valid()
    ensures ForceStep(s, inChannel, command, now).1.Valid()
  {
    if inChannel && command == "off" && Holder(s.log).Some? {
      CloseOwnerReleases(s.log, now);
      assert Chronological(CloseOwner(s.log, now));
    }
  }

  lemma QueueKeeps(s: Store, inChannel: bool, user: UserId, now: int)
    requires s.Valid() && s.Before(now)
    ensures QueueStep(s, inChannel, user, now).1.Valid()
  {
    if inChannel && Holder(s.log) != Some(user) && QueueIndexOf(s.queue, user).None? {
      QueueJoinKeeps(s.log, s.queue, s.pool, user, now);
    }
  }

  lemma DequeueKeeps(s: Store, inChannel: bool, user: UserId, now: int)
    requires s.Valid()
    ensures DequeueStep(s, inChannel, user, now).1.Valid()
  {
    CloseQueueEntryKeeps(s.queue, user, now);
  }

  lemma PoolKeeps(s: Store, inChannel: bool, user: UserId, now: int)
    requires s.Valid()
    ensures PoolStep(s, inChannel, user, now).1.Valid()
  {
    if inChannel && Holder(s.log).Some? && Holder(s.log) != Some(user) && PoolIndexOf(s.pool, user).None? {
      PoolJoinKeeps(s.log, s.queue, s.pool, Holder(s.log).value, user, now);
    }
  }

  lemma UnpoolKeeps(s: Store, inChannel: bool, user: UserId, now: int)
    requires s.Valid()
    ensures UnpoolStep(s, inChannel, user, now).1.Valid()
  {
  }

  // ---------------------------------------------------------------------
  // What each answer means

  /**
   * `on` succeeds exactly when nobody holds the hat; then the user holds it,
   * no longer waits, and is told whether they had waited. Any other answer
   * leaves the store as it was.
   */
  lemma OnOutcome(s: Store, inChannel: bool, user: UserId, now: int)
    requires s.Valid()
    ensures var (r, s') := OnStep(s, inChannel, user, now);
      && (r.Acquired? <==> inChannel && Holder(s.log).None?)
      && (!r.Acquired? ==> s' == s)
      && (r.AlreadyHolder? <==> inChannel && Holder(s.log) == Some(user))
      && (r.HeldBy? <==> inChannel && Holder(s.log).Some? && Holder(s.log) != Some(user))
      && (r.HeldBy? ==>
            && Holder(s.log) == Some(r.holder) && r.holder != user
            && r.since == CurrentOwner(s.log).value.start)
      && (r.Acquired? ==>
            && Holder(s'.log) == Some(user)
            && QueueIndexOf(s'.queue, user).None?
            && (forall u :: u != user ==> QueueIndexOf(s'.queue, u) == QueueIndexOf(s.queue, u))
            && s'.pool == s.pool
            && (r.waited.Some? <==> QueueIndexOf(s.queue, user).Some?)
            && (r.waited.Some? ==> r.waited.value == now - s.queue[QueueIndexOf(s.queue, user).value].start))
  {
    if inChannel && Holder(s.log).None? {
      TakeHat(s.log, user, now);
      CloseQueueEntryKeeps(s.queue, user, now);
      CloseQueueEntryOthers(s.queue, user, now);
    }
  }

  /**
   * `off` succeeds exactly for the holder. With an empty pool nobody holds
   * the hat afterwards and the first queued user is named. Otherwise the
   * holder's oldest pool member holds it, waits and pools no more, and
   * inherits the rest of the pool in order, while the old holder keeps none.
   */
  lemma OffOutcome(s: Store, inChannel: bool, user: UserId, now: int)
    requires s.Valid() && s.Before(now)
    ensures var (r, s') := OffStep(s, inChannel, user, now);
      && ((r.Released? || r.PassedOn?) <==> inChannel && Holder(s.log) == Some(user))
      && (!(r.Released? || r.PassedOn?) ==> s' == s)
      && (r.NoHolder? <==> inChannel && Holder(s.log).None?)
      && (r.HeldBy? <==> inChannel && Holder(s.log).Some? && Holder(s.log) != Some(user))
      && (r.HeldBy? ==>
            && Holder(s.log) == Some(r.holder) && r.holder != user
            && r.since == CurrentOwner(s.log).value.start)
      && (r.Released? ==> r.held == now - CurrentOwner(s.log).value.start)
      && (r.PassedOn? ==> r.held == now - CurrentOwner(s.log).value.start)
      && (r.Released? <==> inChannel && Holder(s.log) == Some(user) && PooledUsers(s.pool, user) == [])
      && (r.Released? ==>
            && Holder(s'.log).None?
            && s'.queue == s.queue && s'.pool == s.pool
            && r.next == NextInQueue(s.queue))
      && (r.PassedOn? ==>
            && r.successor == PooledUsers(s.pool, user)[0]
            && r.successor != user
            && Holder(s'.log) == Some(r.successor)
            && QueueIndexOf(s'.queue, r.successor).None?
            && (forall u :: u != r.successor ==> QueueIndexOf(s'.queue, u) == QueueIndexOf(s.queue, u))
            && PoolIndexOf(s'.pool, r.successor).None?
            && PooledUsers(s'.pool, r.successor) == PooledUsers(s.pool, user)[1..]
            && PooledUsers(s'.pool, user) == [])
  {
    if inChannel && Holder(s.log) == Some(user) {
      if FirstPooled(s.pool, user).None? {
        CloseOwnerReleases(s.log, now);
      } else {
        PassOnKeeps(s.log, s.queue, s.pool, user, now);
        CloseQueueEntryOthers(s.queue, s.pool[FirstPooled(s.pool, user).value].user, now);
      }
    }
  }

  /**
   * `force off` succeeds exactly when someone holds the hat; afterwards
   * nobody holds it, nobody is pooled, and the queue is untouched.
   */
  lemma ForceOutcome(s: Store, inChannel: bool, command: string, now: int)
    requires s.Valid()
    ensures var (r, s') := ForceStep(s, inChannel, command, now);
      && (r.ForcedOff? <==> inChannel && command == "off" && Holder(s.log).Some?)
      && (!r.ForcedOff? ==> s' == s)
      && (r.NotForceOff? <==> inChannel && command != "off")
      && (r.NoHolder? <==> inChannel && command == "off" && Holder(s.log).None?)
      && (r.ForcedOff? ==>
            && Holder(s.log) == Some(r.holder)
            && r.held == now - CurrentOwner(s.log).value.start
            && Holder(s'.log).None?
            && s'.queue == s.queue
            && (forall j :: 0 <= j < |s'.pool| ==> !s'.pool[j].Active())
            && r.next == NextInQueue(s.queue))
  {
    if inChannel && command == "off" && Holder(s.log).Some? {
      CloseOwnerReleases(s.log, now);
    }
  }

  /**
   * `queue` appends a row exactly for a user who neither holds the hat nor
   * waits, and tells them how many active rows are ahead; a user already
   * waiting is told their 1-based rank among the waiting users.
   */
  lemma QueueOutcome(s: Store, inChannel: bool, user: UserId, now: int)
    requires s.Valid() && s.Before(now)
    ensures var (r, s') := QueueStep(s, inChannel, user, now);
      && (r.Joined? <==> inChannel && Holder(s.log) != Some(user) && QueueIndexOf(s.queue, user).None?)
      && (!r.Joined? ==> s' == s)
      && (r.HolderCannotQueue? <==> inChannel && Holder(s.log) == Some(user))
      && (r.AlreadyQueued? <==> inChannel && Holder(s.log) != Some(user) && QueueIndexOf(s.queue, user).Some?)
      && (r.Joined? ==>
            && s'.log == s.log && s'.pool == s.pool
            && s'.queue == s.queue + [Interval(user, now, None)]
            && QueueIndexOf(s'.queue, user) == Some(|s.queue|)
            && r.ahead == ActiveCount(s.queue))
      && (r.AlreadyQueued? ==>
            && QueueIndexOf(s.queue, user).Some?
            && r.position == ActiveCount(s.queue[..QueueIndexOf(s.queue, user).value]) + 1
            && r.queuedFor == now - s.queue[QueueIndexOf(s.queue, user).value].start)
  {
    if inChannel && Holder(s.log) != Some(user) {
      match QueueIndexOf(s.queue, user)
      case Some(k) =>
        PositionIsRank(s.queue, k);
      case None =>
        var queue' := s.queue + [Interval(user, now, None)];
        assert queue'[|s.queue|].Active() && queue'[|s.queue|].user == user;
        JoinAhead(s.queue, user, now);
    }
  }

  /**
   * `dequeue` succeeds exactly for a waiting user; afterwards they wait no
   * more, one user fewer waits, and every other user's queue row is where
   * it was.
   */
  lemma DequeueOutcome(s: Store, inChannel: bool, user: UserId, now: int)
    requires s.Valid()
    ensures var (r, s') := DequeueStep(s, inChannel, user, now);
      && (r.LeftQueue? <==> inChannel && QueueIndexOf(s.queue, user).Some?)
      && (!r.LeftQueue? ==> s' == s)
      && (r.NotQueued? <==> inChannel && QueueIndexOf(s.queue, user).None?)
      && (r.LeftQueue? ==>
            && s'.log == s.log && s'.pool == s.pool
            && QueueIndexOf(s'.queue, user).None?
            && r.queuedFor == now - s.queue[QueueIndexOf(s.queue, user).value].start
            && ActiveCount(s'.queue) + 1 == ActiveCount(s.queue)
            && forall u :: u != user ==> QueueIndexOf(s'.queue, u) == QueueIndexOf(s.queue, u))
  {
    if inChannel && QueueIndexOf(s.queue, user).Some? {
      var k := QueueIndexOf(s.queue, user).value;
      CloseQueueEntryKeeps(s.queue, user, now);
      CountUpdate(s.queue, k, s.queue[k].(end := Some(now)), IsActive);
      CloseQueueEntryOthers(s.queue, user, now);
    }
  }

  /** Leaving the queue twice is the same as leaving it once. */
  lemma DequeueTwice(s: Store, inChannel: bool, user: UserId, now: int, later: int)
    requires s.Valid()
    ensures var s' := DequeueStep(s, inChannel, user, now).1;
      DequeueStep(s', inChannel, user, later) == (if inChannel then NotQueued else WrongChannel, s')
  {
    CloseQueueEntryKeeps(s.queue, user, now);
  }

  /**
   * `pool` succeeds exactly for a user other than the holder who is not
   * pooled while someone holds the hat; the user then joins the end of the
   * holder's pool and no longer waits in the queue.
   */
  lemma PoolOutcome(s: Store, inChannel: bool, user: UserId, now: int)
    requires s.Valid()
    ensures var (r, s') := PoolStep(s, inChannel, user, now);
      && (r.Pooling? <==>
            inChannel && Holder(s.log).Some? && Holder(s.log) != Some(user) && PoolIndexOf(s.pool, user).None?)
      && (!r.Pooling? ==> s' == s)
      && (r.SelfPool? <==> inChannel && Holder(s.log) == Some(user))
      && (r.NoHolder? <==> inChannel && Holder(s.log).None?)
      && (r.AlreadyPooled? <==>
            inChannel && Holder(s.log).Some? && Holder(s.log) != Some(user) && PoolIndexOf(s.pool, user).Some?)
      && (r.Pooling? ==>
            && Holder(s.log) == Some(r.owner)
            && s'.log == s.log
            && PooledUsers(s'.pool, r.owner) == PooledUsers(s.pool, r.owner) + [user]
            && PoolIndexOf(s'.pool, user) == Some(|s.pool|)
            && (forall u :: u != user ==> PoolIndexOf(s'.pool, u) == PoolIndexOf(s.pool, u))
            && QueueIndexOf(s'.queue, user).None?
            && (forall u :: u != user ==> QueueIndexOf(s'.queue, u) == QueueIndexOf(s.queue, u))
            && (r.waited.Some? <==> QueueIndexOf(s.queue, user).Some?)
            && (r.waited.Some? ==> r.waited.value == now - s.queue[QueueIndexOf(s.queue, user).value].start))
  {
    if inChannel && Holder(s.log).Some? && Holder(s.log) != Some(user) && PoolIndexOf(s.pool, user).None? {
      var holder := Holder(s.log).value;
      var pool' := s.pool + [Membership(holder, user, None)];
      PoolJoinKeeps(s.log, s.queue, s.pool, holder, user, now);
      assert pool'[|s.pool|].Active() && pool'[|s.pool|].user == user;
      PoolJoinOthers(s.pool, Membership(holder, user, None));
      CloseQueueEntryOthers(s.queue, user, now);
    }
  }

  /**
   * `unpool` succeeds exactly for a pooled user while someone holds the hat;
   * afterwards the user is pooled no more and every other user's membership
   * is where it was.
   */
  lemma UnpoolOutcome(s: Store, inChannel: bool, user: UserId, now: int)
    requires s.Valid()
    ensures var (r, s') := UnpoolStep(s, inChannel, user, now);
      && (r.Unpooled? <==> inChannel && Holder(s.log).Some? && PoolIndexOf(s.pool, user).Some?)
      && (!r.Unpooled? ==> s' == s)
      && (r.NoHolder? <==> inChannel && Holder(s.log).None?)
      && (r.NotPooled? <==> inChannel && Holder(s.log).Some? && PoolIndexOf(s.pool, user).None?)
      && (r.Unpooled? ==>
            && s'.log == s.log && s'.queue == s.queue
            && PoolIndexOf(s'.pool, user).None?
            && forall u :: u != user ==> PoolIndexOf(s'.pool, u) == PoolIndexOf(s.pool, u))
  {
    if inChannel && Holder(s.log).Some? && PoolIndexOf(s.pool, user).Some? {
      var k := PoolIndexOf(s.pool, user).value;
      var pool' := s.pool[k := s.pool[k].(end := Some(now))];
      forall u | u != user
        ensures PoolIndexOf(pool', u) == PoolIndexOf(s.pool, u)
      {
        IndexMatch(pool', s.pool, (m: Membership) => m.Active() && m.user == u);
      }
    }
  }

  /** Leaving the pool twice is the same as leaving it once. */
  lemma UnpoolTwice(s: Store, inChannel: bool, user: UserId, now: int, later: int)
    requires s.Valid()
    ensures var s' := UnpoolStep(s, inChannel, user, now).1;
      UnpoolStep(s', inChannel, user, later).1 == s'
  {
  }
}
