/** The background task that purges expired keys, and how it is woken, as steps that interleave freely. */
module RedisPurge {
  import opened Streams
  import opened RedisDb

  /** Where the task is: about to look at the shutdown flag, about to purge, asleep (until a deadline, if it
      has one), or gone. */
  datatype Task = Checking | Purging | Waiting(deadline: Option<Instant>) | Exited

  /** `permit`: a notification is stored.  `inflight`: callers that have released the lock and not yet
      notified. */
  datatype Sys = Sys(store: Store, clock: Instant, permit: bool, inflight: nat, task: Task)

  datatype Action =
    | SetStep(key: Key, data: seq<byte>, expire: Option<nat>)
    | ShutdownStep
    | NotifyStep
    | Tick(elapsed: nat)
    | CheckStep
    | PurgeStep
    | TimerStep
    | WakeStep

  const START := Sys(EMPTY, 0, false, 0, Checking)

  predicate TaskAction(a: Action) {
    a.CheckStep? || a.PurgeStep? || a.TimerStep? || a.WakeStep?
  }

  predicate Enabled(s: Sys, a: Action) {
    match a
    case NotifyStep => s.inflight > 0
    case CheckStep => s.task.Checking?
    case PurgeStep => s.task.Purging?
    case TimerStep => s.task.Waiting? && s.task.deadline.Some? && s.task.deadline.value <= s.clock
    case WakeStep => s.task.Waiting? && s.permit
    case _ => true
  }

  /** What a step does to the store, as an operation on it. */
  function OpOf(s: Sys, a: Action): Op {
    match a
    case SetStep(key, data, expire) => SetOp(key, data, expire, s.clock)
    case ShutdownStep => ShutdownOp
    case PurgeStep => PurgeOp(s.clock)
    case _ => GetOp("")
  }

  ghost function Do(s: Sys, a: Action): Sys
    requires Enabled(s, a)
  {
    var store := Apply(s.store, OpOf(s, a));
    match a
    case SetStep(_, _, _) =>
      s.(store := store, inflight := s.inflight + if Reply(s.store, OpOf(s, a)).notify then 1 else 0)
    case ShutdownStep => s.(store := store, inflight := s.inflight + 1)
    case NotifyStep => s.(inflight := s.inflight - 1, permit := true)
    case Tick(elapsed) => s.(clock := s.clock + elapsed)
    case CheckStep => s.(task := if s.store.shutdown then Exited else Purging)
    case PurgeStep => s.(store := store, task := Waiting(Reply(s.store, OpOf(s, a)).when))
    case TimerStep => s.(task := Checking)
    case WakeStep => s.(permit := false, task := Checking)
  }

  /** The states of a run: it begins at the start, and every action is enabled where it happens. */
  ghost predicate IsRun(states: seq<Sys>, actions: seq<Action>) {
    && |states| == |actions| + 1 && states[0] == START
    && forall i :: 0 <= i < |actions| ==> Enabled(states[i], actions[i]) && states[i + 1] == Do(states[i], actions[i])
  }

  // ----- no lost wake-up -----

  /** Nobody has notified, or is about to notify, the task. */
  predicate Quiet(s: Sys) {
    !s.permit && s.inflight == 0
  }

  /** Waiting for the deadline is waiting for no entry too long. */
  ghost predicate Covers(deadline: Option<Instant>, entries: map<Key, Entry>) {
    forall k, at: Instant :: Expires(entries, k, at) ==> deadline.Some? && deadline.value <= at
  }

  ghost predicate Inv(s: Sys) {
    && (s.task.Waiting? && Quiet(s) ==> Covers(s.task.deadline, s.store.entries))
    && (s.store.shutdown && Quiet(s) ==> s.task.Checking? || s.task.Exited?)
    && (s.task.Exited? ==> s.store.shutdown)
  }

  lemma InvKept(s: Sys, a: Action)
    requires Inv(s) && Enabled(s, a)
    ensures Inv(Do(s, a))
  {
    var t := Do(s, a);
    if a.SetStep? && t.task.Waiting? && Quiet(t) {
      SetCovered(s, a);
    }
  }

  /** A set that does not notify sets no deadline before the one the task waits for. */
  lemma SetCovered(s: Sys, a: Action)
    requires a.SetStep? && s.task.Waiting? && Quiet(Do(s, a)) && Covers(s.task.deadline, s.store.entries)
    ensures Covers(s.task.deadline, Do(s, a).store.entries)
  {
    var deadline, entries := DeadlineOf(a.expire, s.clock), s.store.entries;
    forall k, at: Instant | Expires(Do(s, a).store.entries, k, at)
      ensures s.task.deadline.Some? && s.task.deadline.value <= at
    {
      if k == a.key {
        assert deadline == Some(at) && !Ahead(entries, deadline);
        var k', at': Instant :| Expires(entries, k', at') && at' <= at;
      } else {
        assert Expires(entries, k, at);
      }
    }
  }

  lemma {:induction false} InvHolds(states: seq<Sys>, actions: seq<Action>, i: nat)
    requires IsRun(states, actions) && i < |states|
    ensures Inv(states[i])
  {
    if i > 0 {
      InvHolds(states, actions, i - 1);
      InvKept(states[i - 1], actions[i - 1]);
    }
  }

  /** However setters, shutdown, notifications, time and the task interleave: a task that waits with no
      notification stored or under way has not missed a shutdown, and waits for no tracked expiry too long. */
  lemma NoLostWakeUp(states: seq<Sys>, actions: seq<Action>, i: nat)
    requires IsRun(states, actions) && i < |states|
    requires states[i].task.Waiting? && !states[i].permit && states[i].inflight == 0
    ensures !states[i].store.shutdown
    ensures match states[i].task.deadline
      case Some(t) => forall k, at: Instant :: Expires(states[i].store.entries, k, at) ==> t <= at
      case None => forall k, at: Instant :: !Expires(states[i].store.entries, k, at)
  {
    InvHolds(states, actions, i);
  }

  // ----- what the task gets done -----

  /** The task can do nothing by itself. */
  predicate Blocked(s: Sys) {
    s.task.Exited? || (s.task.Waiting? && !Enabled(s, TimerStep) && !Enabled(s, WakeStep))
  }

  /** How many steps the task can take at most before it is blocked. */
  function Rank(s: Sys): nat {
    (if s.permit && !s.task.Exited? then 3 else 0) +
    match s.task
    case Checking => 2
    case Purging => 1
    case Waiting(_) => if Enabled(s, TimerStep) then 3 else 0
    case Exited => 0
  }

  /** Whichever steps the task takes, it soon has none left to take. */
  lemma TaskGetsBlocked(s: Sys, a: Action)
    requires TaskAction(a) && Enabled(s, a)
    ensures Rank(Do(s, a)) < Rank(s) <= 6
    ensures !Blocked(s)
  {
  }

  /** The steps of the task and nothing else. */
  ghost predicate TaskRun(states: seq<Sys>, actions: seq<Action>) {
    && |states| == |actions| + 1
    && forall i :: 0 <= i < |actions| ==>
      TaskAction(actions[i]) && Enabled(states[i], actions[i]) && states[i + 1] == Do(states[i], actions[i])
  }

  /** Nothing is due that the task would sleep through. */
  lemma BlockedIsDone(s: Sys)
    requires Inv(s) && s.inflight == 0 && Blocked(s)
    ensures s.store.shutdown <==> s.task.Exited?
    ensures !s.store.shutdown ==> Purged(s.store.entries, s.clock) == s.store.entries
  {
    if !s.store.shutdown {
      forall k | k in s.store.entries
        ensures !Due(s.store.entries[k], s.clock)
      {
        if s.store.entries[k].expiresAt.Some? {
          assert Expires(s.store.entries, k, s.store.entries[k].expiresAt.value);
        }
      }
    }
  }

  /** What a step of the task changes in the store is dropping keys that are due. */
  lemma TaskStepPurges(s: Sys, a: Action)
    requires TaskAction(a) && Enabled(s, a)
    ensures var t := Do(s, a);
      && t.clock == s.clock && t.inflight == s.inflight && t.store.shutdown == s.store.shutdown
      && Purged(t.store.entries, t.clock) == Purged(s.store.entries, s.clock)
      && (s.store.shutdown ==> t.store == s.store)
  {
  }

  /** From any state that a run reaches, with all notifications delivered: left to itself, the task takes at
      most six steps; it then has exited if the store is shut down, and otherwise has dropped exactly the
      keys due by now and sleeps. */
  lemma {:induction false} TaskCatchesUp(states: seq<Sys>, actions: seq<Action>)
    requires TaskRun(states, actions) && Inv(states[0]) && states[0].inflight == 0
    ensures |actions| <= Rank(states[0]) <= 6
    ensures var s, t := states[0], states[|actions|];
      Blocked(t) ==>
        (t.task.Exited? <==> s.store.shutdown) &&
        t.store.entries == if s.store.shutdown then s.store.entries else Purged(s.store.entries, s.clock)
    ensures !Blocked(states[|actions|]) ==> exists a :: TaskAction(a) && Enabled(states[|actions|], a)
    decreases |actions|
  {
    hide Do, Inv, Purged, Blocked, Rank;
    if actions == [] {
      RankBound(states[0]);
      if Blocked(states[0]) {
        BlockedIsDone(states[0]);
      } else {
        NotBlocked(states[0]);
      }
    } else {
      TaskGetsBlocked(states[0], actions[0]);
      TaskStepPurges(states[0], actions[0]);
      InvKept(states[0], actions[0]);
      TaskCatchesUp(states[1..], actions[1..]);
    }
  }

  lemma RankBound(s: Sys)
    ensures Rank(s) <= 6
  {
  }

  lemma NotBlocked(s: Sys)
    requires !Blocked(s)
    ensures exists a :: TaskAction(a) && Enabled(s, a)
  {
    var a := match s.task
      case Checking => CheckStep
      case Purging => PurgeStep
      case _ => if Enabled(s, TimerStep) then TimerStep else WakeStep;
    assert TaskAction(a) && Enabled(s, a);
  }

  // ----- what clients see -----

  /** The operations on the store that a run performs. */
  function OpsOf(states: seq<Sys>, actions: seq<Action>): (ops: seq<Op>)
    requires |states| == |actions| + 1
    ensures |ops| == |actions|
  {
    seq(|actions|, i requires 0 <= i < |actions| => OpOf(states[i], actions[i]))
  }

  /** The store of a run is what its operations make of it in their order. */
  lemma {:induction false} StoreOfRun(states: seq<Sys>, actions: seq<Action>)
    requires IsRun(states, actions)
    ensures states[|actions|].store == Run(OpsOf(states, actions))
    decreases |actions|
  {
    if actions != [] {
      var n := |actions| - 1;
      StoreOfRun(states[..n + 1], actions[..n]);
      assert OpsOf(states, actions)[..n] == OpsOf(states[..n + 1], actions[..n]);
    }
  }

  /** In every run, a key has the value last set, with its deadline, unless the task purged at an instant not
      before that deadline since: it never drops a key early. */
  lemma KeysOfRun(states: seq<Sys>, actions: seq<Action>, key: Key)
    requires IsRun(states, actions)
    ensures var s, ops := states[|actions|].store, OpsOf(states, actions);
      && (key in s.entries <==> exists i: nat :: Stands(ops, key, i))
      && forall i: nat :: Stands(ops, key, i) ==> Holds(s, key, ops[i])
  {
    StoreOfRun(states, actions);
    HistoryOfKey(OpsOf(states, actions), key);
  }

  /** In every run, by its history alone: a set notifies the task exactly if its deadline is before those of all
      sets that stand, and a purge makes the task wait for the first of the deadlines left, or for a notification
      if there is none or if a shutdown came before; no other step but a shutdown touches the store. */
  lemma WakingOfRun(states: seq<Sys>, actions: seq<Action>, i: nat)
    requires IsRun(states, actions) && i < |actions|
    ensures var ops, s, t := OpsOf(states, actions), states[i], states[i + 1];
      match actions[i]
      case SetStep(_, _, expire) =>
        var ahead := expire.Some? && AheadOfAll(ops[..i], s.clock + expire.value);
        t == s.(store := t.store, inflight := s.inflight + if ahead then 1 else 0)
      case PurgeStep =>
        && t == s.(store := t.store, task := t.task) && t.task.Waiting?
        && if ShutdownOp in ops[..i] then t.task.deadline == None else FirstEnd(ops[..i + 1], t.task.deadline)
      case ShutdownStep => t == s.(store := t.store, inflight := s.inflight + 1)
      case _ => t.store == s.store
  {
    hide Run, AheadOfAll, FirstEnd, Reply;
    var ops := OpsOf(states, actions);
    assert ops[..i] == OpsOf(states[..i + 1], actions[..i]);
    StoreOfRun(states[..i + 1], actions[..i]);
    ReplyExplained(ops, i);
  }
}
