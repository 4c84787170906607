/**
 * The three interval logs of the hat (bot/models.py) and the read-only
 * queries and bulk updates that bot/commands/hat.py runs against them.
 *
 * A row is active while its `end` is `None`. Rows are kept in insertion
 * order, which is also the order of their start times because every command
 * runs at a time later than every earlier one.
 */
module HatRecords {
  import opened Wrappers
  import opened Search

  type UserId = string

  /** A HatLog row (who held the hat) or a HatQueue row (who waited). */
  datatype Interval = Interval(user: UserId, start: int, end: Option<int>)
  {
    predicate Active() { end.None? }
  }

  /** A HatPool row: `user` is pooled under the holder `owner`. */
  datatype Membership = Membership(owner: UserId, user: UserId, end: Option<int>)
  {
    predicate Active() { end.None? }
  }

  /** `Interval.Active` as a value, for the first-match and counting queries. */
  predicate IsActive(e: Interval)
  {
    e.Active()
  }

  // ---------------------------------------------------------------------
  // The ownership log

  /**
   * The first active row: `_get_current_hat_owner` on the ownership log and
   * `_get_next_user_in_queue` on the queue.
   */
  function FirstActive(rows: seq<Interval>): (r: Option<nat>)
    ensures r.Some? ==> r.value < |rows| && rows[r.value].Active()
    ensures r.Some? ==> forall j :: 0 <= j < r.value ==> !rows[j].Active()
    ensures r.None? <==> forall j :: 0 <= j < |rows| ==> !rows[j].Active()
  {
    IndexWhere(rows, IsActive)
  }

  /** Start times strictly increase along the log. */
  ghost predicate Chronological(rows: seq<Interval>)
  {
    forall i, j :: 0 <= i < j < |rows| ==> rows[i].start < rows[j].start
  }

  /** On a chronological log the first active row is the active row that started earliest. */
  lemma FirstActiveIsEarliest(rows: seq<Interval>, j: nat)
    requires Chronological(rows)
    requires j < |rows| && rows[j].Active()
    ensures FirstActive(rows).Some?
    ensures rows[FirstActive(rows).value].start <= rows[j].start
  {
  }

  /** The holder's row of the ownership log, if someone holds the hat. */
  function CurrentOwner(log: seq<Interval>): (r: Option<Interval>)
    ensures r.Some? ==> r.value in log && r.value.Active()
    ensures r.None? <==> forall j :: 0 <= j < |log| ==> !log[j].Active()
  {
    match FirstActive(log)
    case None => None
    case Some(i) => Some(log[i])
  }

  /** The user who holds the hat, if any. */
  function Holder(log: seq<Interval>): Option<UserId>
  {
    match CurrentOwner(log)
    case None => None
    case Some(e) => Some(e.user)
  }

  /** At most one ownership interval is active. */
  ghost predicate SingleHolder(log: seq<Interval>)
  {
    forall i, j :: 0 <= i < |log| && 0 <= j < |log| && log[i].Active() && log[j].Active() ==> i == j
  }

  /** `_give_up_hat`: the holder's interval closed at `now`. */
  function CloseOwner(log: seq<Interval>, now: int): (r: seq<Interval>)
    ensures |r| == |log|
    ensures forall j :: 0 <= j < |log| ==> r[j].user == log[j].user && r[j].start == log[j].start
    ensures forall j :: 0 <= j < |log| && !log[j].Active() ==> r[j] == log[j]
    ensures FirstActive(log).None? ==> r == log
    ensures FirstActive(log).Some? ==> r[FirstActive(log).value].end == Some(now)
    ensures forall j :: 0 <= j < |log| && FirstActive(log) != Some(j) ==> r[j] == log[j]
  {
    match FirstActive(log)
    case None => log
    case Some(i) => log[i := log[i].(end := Some(now))]
  }

  /** With a single holder, closing the holder's interval leaves nobody holding the hat. */
  lemma CloseOwnerReleases(log: seq<Interval>, now: int)
    requires SingleHolder(log)
    ensures Holder(CloseOwner(log, now)).None?
  {
  }

  /** Appending an active interval to a log without one makes its user the holder. */
  lemma TakeHat(log: seq<Interval>, user: UserId, now: int)
    requires Holder(log).None?
    ensures Holder(log + [Interval(user, now, None)]) == Some(user)
    ensures SingleHolder(log + [Interval(user, now, None)])
  {
    var log' := log + [Interval(user, now, None)];
    assert log'[|log|].Active();
    assert forall j :: 0 <= j < |log| ==> log'[j] == log[j];
  }

  // ---------------------------------------------------------------------
  // The queue

  /** `_get_user_in_queue`, first half: the user's active queue row. */
  function QueueIndexOf(queue: seq<Interval>, user: UserId): (r: Option<nat>)
    ensures r.Some? ==> r.value < |queue| && queue[r.value].Active() && queue[r.value].user == user
    ensures r.None? <==> forall j :: 0 <= j < |queue| ==> !(queue[j].Active() && queue[j].user == user)
  {
    IndexWhere(queue, (e: Interval) => e.Active() && e.user == user)
  }

  /** Every user has at most one active queue row. */
  ghost predicate QueuedOnce(queue: seq<Interval>)
  {
    forall i, j ::
      0 <= i < |queue| && 0 <= j < |queue| && queue[i].Active() && queue[j].Active() && queue[i].user == queue[j].user
      ==> i == j
  }

  /** Number of active rows. */
  function ActiveCount(rows: seq<Interval>): nat
  {
    CountWhere(rows, IsActive)
  }

  /** `_get_user_in_queue`, second half: active rows that started no later than `t`. */
  function Position(queue: seq<Interval>, t: int): (n: nat)
    ensures n <= |queue|
    ensures n == 0 <==> forall j :: 0 <= j < |queue| ==> !(queue[j].Active() && queue[j].start <= t)
  {
    CountWhere(queue, (e: Interval) => e.Active() && e.start <= t)
  }

  /** `_add_user_to_queue`'s answer: active rows that started strictly before `t`. */
  function Ahead(queue: seq<Interval>, t: int): (n: nat)
    ensures n <= |queue|
    ensures n == 0 <==> forall j :: 0 <= j < |queue| ==> !(queue[j].Active() && queue[j].start < t)
  {
    CountWhere(queue, (e: Interval) => e.Active() && e.start < t)
  }

  /**
   * The position reported for an active row of a chronological queue is its
   * 1-based rank among the active rows, in arrival order.
   */
  lemma {:induction false} PositionIsRank(queue: seq<Interval>, i: nat)
    requires Chronological(queue)
    requires i < |queue| && queue[i].Active()
    ensures Position(queue, queue[i].start) == ActiveCount(queue[..i]) + 1
  {
    var t := queue[i].start;
    var atOrBefore := (e: Interval) => e.Active() && e.start <= t;
    var before, after := queue[..i], queue[i + 1..];
    CountSplit(queue, i + 1, atOrBefore);
    assert queue[..i + 1] == before + [queue[i]];
    CountAppend(before, queue[i], atOrBefore);
    assert forall j :: 0 <= j < |before| ==> atOrBefore(before[j]) == IsActive(before[j]) by {
      forall j | 0 <= j < |before|
        ensures atOrBefore(before[j]) == IsActive(before[j])
      {
        assert before[j] == queue[j];
      }
    }
    CountSame(before, atOrBefore, IsActive);
    assert forall j :: 0 <= j < |after| ==> !atOrBefore(after[j]) by {
      forall j | 0 <= j < |after|
        ensures !atOrBefore(after[j])
      {
        assert after[j] == queue[i + 1 + j];
      }
    }
  }

  /** An active row at index `i` makes every longer prefix count more active rows than `queue[..i]`. */
  lemma ActivePrefixGrows(queue: seq<Interval>, i: nat, j: nat)
    requires i < j <= |queue| && queue[i].Active()
    ensures ActiveCount(queue[..i]) < ActiveCount(queue[..j])
  {
    var upToJ := queue[..j];
    CountSplit(upToJ, i, IsActive);
    assert upToJ[..i] == queue[..i];
    assert IsActive(upToJ[i..][0]);
  }

  /** Ranks follow arrival order: an earlier active row has a smaller position. */
  lemma RanksAreFifo(queue: seq<Interval>, i: nat, j: nat)
    requires Chronological(queue)
    requires i < j < |queue| && queue[i].Active() && queue[j].Active()
    ensures Position(queue, queue[i].start) < Position(queue, queue[j].start)
  {
    PositionIsRank(queue, i);
    PositionIsRank(queue, j);
    ActivePrefixGrows(queue, i, j);
  }

  /**
   * A newcomer who joins at a time later than every row is told how many
   * users were actively waiting before them.
   */
  lemma JoinAhead(queue: seq<Interval>, user: UserId, now: int)
    requires forall j :: 0 <= j < |queue| ==> queue[j].start < now
    ensures Ahead(queue + [Interval(user, now, None)], now) == ActiveCount(queue)
  {
    var before := (e: Interval) => e.Active() && e.start < now;
    CountAppend(queue, Interval(user, now, None), before);
    CountSame(queue, before, IsActive);
  }

  /** `_remove_user_from_queue`: the user's active queue row closed at `now`, if there is one. */
  function CloseQueueEntry(queue: seq<Interval>, user: UserId, now: int): (r: seq<Interval>)
    ensures |r| == |queue|
    ensures forall j :: 0 <= j < |queue| && queue[j].user != user ==> r[j] == queue[j]
    ensures forall j :: 0 <= j < |queue| ==>
      r[j].user == queue[j].user && r[j].start == queue[j].start && (r[j].Active() ==> queue[j].Active())
    ensures QueueIndexOf(queue, user).None? ==> r == queue
    ensures QueueIndexOf(queue, user).Some? ==> r[QueueIndexOf(queue, user).value].end == Some(now)
    ensures forall j :: 0 <= j < |queue| && QueueIndexOf(queue, user) != Some(j) ==> r[j] == queue[j]
  {
    match QueueIndexOf(queue, user)
    case None => queue
    case Some(k) => queue[k := queue[k].(end := Some(now))]
  }

  /** Leaving the queue moves no other user's active row. */
  lemma CloseQueueEntryOthers(queue: seq<Interval>, user: UserId, now: int)
    ensures forall u :: u != user ==> QueueIndexOf(CloseQueueEntry(queue, user, now), u) == QueueIndexOf(queue, u)
  {
    var queue' := CloseQueueEntry(queue, user, now);
    forall u | u != user
      ensures QueueIndexOf(queue', u) == QueueIndexOf(queue, u)
    {
      IndexMatch(queue', queue, (e: Interval) => e.Active() && e.user == u);
    }
  }

  /** Closing a queue row keeps every user queued at most once and the queue chronological. */
  lemma CloseQueueEntryKeeps(queue: seq<Interval>, user: UserId, now: int)
    ensures QueuedOnce(queue) ==> QueuedOnce(CloseQueueEntry(queue, user, now))
    ensures QueuedOnce(queue) ==> QueueIndexOf(CloseQueueEntry(queue, user, now), user).None?
    ensures Chronological(queue) ==> Chronological(CloseQueueEntry(queue, user, now))
    ensures forall u :: QueueIndexOf(queue, u).None? ==> QueueIndexOf(CloseQueueEntry(queue, user, now), u).None?
  {
  }

  // ---------------------------------------------------------------------
  // The pool

  /** `_get_pooled_user`: the user's active membership, whoever owns it. */
  function PoolIndexOf(pool: seq<Membership>, user: UserId): (r: Option<nat>)
    ensures r.Some? ==> r.value < |pool| && pool[r.value].Active() && pool[r.value].user == user
    ensures r.None? <==> forall j :: 0 <= j < |pool| ==> !(pool[j].Active() && pool[j].user == user)
  {
    IndexWhere(pool, (m: Membership) => m.Active() && m.user == user)
  }

  /**
   * `_get_pooled_users(owner)[0]`: the first active membership under
   * `owner` in insertion order; the code leaves the order to the database.
   */
  function FirstPooled(pool: seq<Membership>, owner: UserId): (r: Option<nat>)
    ensures r.Some? ==> r.value < |pool| && pool[r.value].Active() && pool[r.value].owner == owner
    ensures r.Some? ==> forall j :: 0 <= j < r.value ==> !(pool[j].Active() && pool[j].owner == owner)
    ensures r.None? <==> forall j :: 0 <= j < |pool| ==> !(pool[j].Active() && pool[j].owner == owner)
  {
    IndexWhere(pool, (m: Membership) => m.Active() && m.owner == owner)
  }

  /** `_get_pooled_users(owner)`: the members pooled under `owner`, in insertion order. */
  function PooledUsers(pool: seq<Membership>, owner: UserId): (r: seq<UserId>)
    ensures |r| <= |pool|
    ensures |r| == 0 <==> forall j :: 0 <= j < |pool| ==> !(pool[j].Active() && pool[j].owner == owner)
  {
    if |pool| == 0 then []
    else (if pool[0].Active() && pool[0].owner == owner then [pool[0].user] else [])
         + PooledUsers(pool[1..], owner)
  }

  /** A new membership joins the end of its owner's pool. */
  lemma {:induction false} PooledAppend(pool: seq<Membership>, m: Membership, owner: UserId)
    ensures PooledUsers(pool + [m], owner)
         == PooledUsers(pool, owner) + (if m.Active() && m.owner == owner then [m.user] else [])
  {
    if |pool| > 0 {
      assert (pool + [m])[1..] == pool[1..] + [m];
      PooledAppend(pool[1..], m, owner);
    } else {
      assert pool + [m] == [m];
    }
  }

  /** A new membership moves no other user's active membership. */
  lemma PoolJoinOthers(pool: seq<Membership>, m: Membership)
    ensures forall u :: u != m.user ==> PoolIndexOf(pool + [m], u) == PoolIndexOf(pool, u)
  {
    forall u | u != m.user
      ensures PoolIndexOf(pool + [m], u) == PoolIndexOf(pool, u)
    {
      IndexAppend(pool, m, (x: Membership) => x.Active() && x.user == u);
    }
  }

  /**
   * Closing the oldest membership under `owner` removes the head of the
   * owner's pool and keeps the rest in order.
   */
  lemma {:induction false} PooledAfterFirst(pool: seq<Membership>, owner: UserId, now: int)
    requires FirstPooled(pool, owner).Some?
    ensures var k := FirstPooled(pool, owner).value;
      && PooledUsers(pool, owner) != []
      && PooledUsers(pool, owner)[0] == pool[k].user
      && PooledUsers(pool[k := pool[k].(end := Some(now))], owner) == PooledUsers(pool, owner)[1..]
  {
    var k := FirstPooled(pool, owner).value;
    var closed := pool[k := pool[k].(end := Some(now))];
    if k == 0 {
      assert closed[1..] == pool[1..];
      assert PooledUsers(pool, owner) == [pool[0].user] + PooledUsers(pool[1..], owner);
      assert PooledUsers(closed, owner) == PooledUsers(pool[1..], owner);
    } else {
      var rest := pool[1..];
      assert rest[k - 1] == pool[k];
      var k' := FirstPooled(rest, owner).value;
      assert k' == k - 1 by {
        assert rest[k'] == pool[k' + 1];
        assert forall j :: 0 <= j < k' ==> rest[j] == pool[j + 1];
      }
      PooledAfterFirst(rest, owner, now);
      assert closed[1..] == rest[k - 1 := rest[k - 1].(end := Some(now))];
      assert PooledUsers(pool, owner) == PooledUsers(rest, owner);
      assert PooledUsers(closed, owner) == PooledUsers(closed[1..], owner);
    }
  }

  /** Every member has at most one active membership. */
  ghost predicate PooledOnce(pool: seq<Membership>)
  {
    forall i, j ::
      0 <= i < |pool| && 0 <= j < |pool| && pool[i].Active() && pool[j].Active() && pool[i].user == pool[j].user
      ==> i == j
  }

  /** No membership pools a user with themself. */
  ghost predicate NeverSelfPooled(pool: seq<Membership>)
  {
    forall i :: 0 <= i < |pool| ==> pool[i].user != pool[i].owner
  }

  /** One membership after `_change_hat_pool_owner(from, to)`. */
  function Reown(m: Membership, from: UserId, to: UserId): Membership
  {
    if m.Active() && m.owner == from then m.(owner := to) else m
  }

  /** `_change_hat_pool_owner`: every active membership under `from` now follows `to`. */
  function Reowned(pool: seq<Membership>, from: UserId, to: UserId): (r: seq<Membership>)
    ensures |r| == |pool|
    ensures forall j :: 0 <= j < |pool| ==> r[j] == Reown(pool[j], from, to)
  {
    if |pool| == 0 then [] else [Reown(pool[0], from, to)] + Reowned(pool[1..], from, to)
  }

  /**
   * When `to` owns no active membership, re-owning hands `from`'s whole pool,
   * in order, to `to` and leaves `from` with none.
   */
  lemma {:induction false} ReownedMovesPool(pool: seq<Membership>, from: UserId, to: UserId)
    requires from != to
    requires PooledUsers(pool, to) == []
    ensures PooledUsers(Reowned(pool, from, to), to) == PooledUsers(pool, from)
    ensures PooledUsers(Reowned(pool, from, to), from) == []
  {
    if |pool| > 0 {
      assert Reowned(pool, from, to)[1..] == Reowned(pool[1..], from, to);
      ReownedMovesPool(pool[1..], from, to);
    }
  }

  /** One membership after `_clear_hat_pool(owner)` at `now`. */
  function CloseIfOwned(m: Membership, owner: UserId, now: int): Membership
  {
    if m.Active() && m.owner == owner then m.(end := Some(now)) else m
  }

  /** `_clear_hat_pool`: every active membership under `owner` closed at `now`. */
  function ClosedUnder(pool: seq<Membership>, owner: UserId, now: int): (r: seq<Membership>)
    ensures |r| == |pool|
    ensures forall j :: 0 <= j < |pool| ==> r[j] == CloseIfOwned(pool[j], owner, now)
    ensures forall j :: 0 <= j < |pool| ==> r[j].user == pool[j].user && r[j].owner == pool[j].owner
    ensures PooledUsers(r, owner) == []
  {
    seq(|pool|, j requires 0 <= j < |pool| => CloseIfOwned(pool[j], owner, now))
  }

  // ---------------------------------------------------------------------
  // The whole store

  /** Every active membership belongs to the current holder. */
  ghost predicate PoolFollowsHolder(log: seq<Interval>, pool: seq<Membership>)
  {
    forall i :: 0 <= i < |pool| && pool[i].Active() ==> Holder(log) == Some(pool[i].owner)
  }

  /** The holder never waits in the queue. */
  ghost predicate HolderNotQueued(log: seq<Interval>, queue: seq<Interval>)
  {
    Holder(log).Some? ==> QueueIndexOf(queue, Holder(log).value).None?
  }

  /** The invariant every command keeps. */
  ghost predicate Consistent(log: seq<Interval>, queue: seq<Interval>, pool: seq<Membership>)
  {
    && SingleHolder(log)
    && Chronological(log)
    && Chronological(queue)
    && QueuedOnce(queue)
    && PooledOnce(pool)
    && NeverSelfPooled(pool)
    && PoolFollowsHolder(log, pool)
    && HolderNotQueued(log, queue)
  }

  /** Every row of both logs started before `now`. */
  ghost predicate StartedBefore(rows: seq<Interval>, now: int)
  {
    forall j :: 0 <= j < |rows| ==> rows[j].start < now
  }

  /** Holders no longer pool: no active membership has the holder as its member. */
  lemma HolderNotPooled(log: seq<Interval>, pool: seq<Membership>)
    requires PoolFollowsHolder(log, pool) && NeverSelfPooled(pool)
    ensures Holder(log).Some? ==> PoolIndexOf(pool, Holder(log).value).None?
  {
  }

  // ---------------------------------------------------------------------
  // Engagement counters

  /** `_user_deploy_count`: queue rows of the user, active or not (not HatLog rows). */
  function UserDeployCount(queue: seq<Interval>, user: UserId): (n: nat)
    ensures n <= |queue|
    ensures n == 0 <==> forall j :: 0 <= j < |queue| ==> queue[j].user != user
  {
    CountWhere(queue, (e: Interval) => e.user == user)
  }

  /** `_user_pool_count`: memberships the user ever had, active or not. */
  function UserPoolCount(pool: seq<Membership>, user: UserId): (n: nat)
    ensures n <= |pool|
    ensures n == 0 <==> forall j :: 0 <= j < |pool| ==> pool[j].user != user
  {
    CountWhere(pool, (m: Membership) => m.user == user)
  }

  /** `_daily_deploy_count` with the local-midnight cut-off given: queue rows started after it. */
  function DailyDeployCount(queue: seq<Interval>, cutoff: int): (n: nat)
    ensures n <= |queue|
    ensures n == 0 <==> forall j :: 0 <= j < |queue| ==> queue[j].start <= cutoff
  {
    CountWhere(queue, (e: Interval) => e.start > cutoff)
  }

  /** Joining the queue counts as one more deploy of that user, and of no one else. */
  lemma JoinCountsAsDeploy(queue: seq<Interval>, user: UserId, other: UserId, now: int, cutoff: int)
    requires other != user && cutoff < now
    ensures UserDeployCount(queue + [Interval(user, now, None)], user) == UserDeployCount(queue, user) + 1
    ensures UserDeployCount(queue + [Interval(user, now, None)], other) == UserDeployCount(queue, other)
    ensures DailyDeployCount(queue + [Interval(user, now, None)], cutoff) == DailyDeployCount(queue, cutoff) + 1
  {
    var e := Interval(user, now, None);
    CountAppend(queue, e, (x: Interval) => x.user == user);
    CountAppend(queue, e, (x: Interval) => x.user == other);
    CountAppend(queue, e, (x: Interval) => x.start > cutoff);
  }

  /**
   * Closing a queue row (taking the hat, pooling, leaving the queue) never
   * changes a deploy count: deploys are counted when a user joins the queue.
   */
  lemma ClosingKeepsDeployCount(queue: seq<Interval>, user: UserId, now: int, who: UserId, cutoff: int)
    ensures UserDeployCount(CloseQueueEntry(queue, user, now), who) == UserDeployCount(queue, who)
    ensures DailyDeployCount(CloseQueueEntry(queue, user, now), cutoff) == DailyDeployCount(queue, cutoff)
  {
    var r := CloseQueueEntry(queue, user, now);
    CountMatch(r, queue, (x: Interval) => x.user == who);
    CountMatch(r, queue, (x: Interval) => x.start > cutoff);
  }

  /**
   * Joining a pool counts as one more pool of that user and of no one else;
   * ending a membership or handing the pool to a new holder changes no
   * user's pool count.
   */
  lemma PoolCounts(pool: seq<Membership>, owner: UserId, user: UserId, who: UserId, k: nat, now: int, to: UserId)
    requires k < |pool|
    ensures UserPoolCount(pool + [Membership(owner, user, None)], who)
         == UserPoolCount(pool, who) + (if who == user then 1 else 0)
    ensures UserPoolCount(pool[k := pool[k].(end := Some(now))], who) == UserPoolCount(pool, who)
    ensures UserPoolCount(Reowned(pool, owner, to), who) == UserPoolCount(pool, who)
    ensures UserPoolCount(ClosedUnder(pool, owner, now), who) == UserPoolCount(pool, who)
  {
    var member := (m: Membership) => m.user == who;
    CountAppend(pool, Membership(owner, user, None), member);
    CountMatch(pool[k := pool[k].(end := Some(now))], pool, member);
    ReownedKeepsPoolCount(pool, owner, to, who);
    ClearingKeepsPoolCount(pool, owner, now, who);
  }

  /** Re-owning memberships keeps every user's pool count. */
  lemma ReownedKeepsPoolCount(pool: seq<Membership>, owner: UserId, to: UserId, who: UserId)
    ensures UserPoolCount(Reowned(pool, owner, to), who) == UserPoolCount(pool, who)
  {
    CountMatch(Reowned(pool, owner, to), pool, (m: Membership) => m.user == who);
  }

  /** Closing an owner's memberships keeps every user's pool count. */
  lemma ClearingKeepsPoolCount(pool: seq<Membership>, owner: UserId, now: int, who: UserId)
    ensures UserPoolCount(ClosedUnder(pool, owner, now), who) == UserPoolCount(pool, who)
  {
    CountMatch(ClosedUnder(pool, owner, now), pool, (m: Membership) => m.user == who);
  }
}
