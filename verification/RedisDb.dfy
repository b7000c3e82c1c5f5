/** A key store with an index of the keys that expire, ordered by when they do. */
module RedisDb {
  import opened Streams

  type Key = string
  type Instant = nat

  datatype Entry = Entry(data: seq<byte>, expiresAt: Option<Instant>)

  // ----- the store without an index -----

  /** What clients and the purge task see. */
  datatype Store = Store(entries: map<Key, Entry>, shutdown: bool)

  const EMPTY := Store(map[], false)

  ghost predicate Expires(entries: map<Key, Entry>, k: Key, at: Instant) {
    k in entries && entries[k].expiresAt == Some(at)
  }

  predicate Due(e: Entry, now: Instant) {
    e.expiresAt.Some? && e.expiresAt.value <= now
  }

  /** The entries without those due by now. */
  function Purged(entries: map<Key, Entry>, now: Instant): map<Key, Entry> {
    map k | k in entries && !Due(entries[k], now) :: entries[k]
  }

  /** The earliest deadline of any entry. */
  ghost predicate IsEarliest(entries: map<Key, Entry>, when: Option<Instant>) {
    match when
    case None => forall k, at: Instant :: !Expires(entries, k, at)
    case Some(t) => (exists k :: Expires(entries, k, t)) && forall k, at: Instant :: Expires(entries, k, at) ==> t <= at
  }

  lemma EarliestIsUnique(entries: map<Key, Entry>, a: Option<Instant>, b: Option<Instant>)
    requires IsEarliest(entries, a) && IsEarliest(entries, b)
    ensures a == b
  {
  }

  ghost function Earliest(entries: map<Key, Entry>): (when: Option<Instant>)
    ensures IsEarliest(entries, when)
  {
    EarliestExists(entries);
    var when :| IsEarliest(entries, when);
    when
  }

  lemma EarliestExists(entries: map<Key, Entry>)
    ensures exists when :: IsEarliest(entries, when)
  {
    var index := Index(entries);
    if index == {} {
      forall k, at: Instant
        ensures !Expires(entries, k, at)
      {
        Indexed(entries, (at, k));
      }
      assert IsEarliest(entries, None);
    } else {
      var e := LeastExists(index);
      LeastIsEarliest(entries, e);
    }
  }

  /** A deadline of e is ahead of all deadlines in entries. */
  ghost predicate Ahead(entries: map<Key, Entry>, deadline: Option<Instant>) {
    deadline.Some? && forall k, at: Instant :: Expires(entries, k, at) ==> deadline.value < at
  }

  function DeadlineOf(expire: Option<nat>, now: Instant): Option<Instant> {
    if expire.Some? then Some(now + expire.value) else None
  }

  datatype Op =
    | SetOp(key: Key, data: seq<byte>, expire: Option<nat>, now: Instant)
    | GetOp(key: Key)
    | PurgeOp(now: Instant)
    | ShutdownOp

  datatype Answer = Notifies(notify: bool) | Found(data: Option<seq<byte>>) | Next(when: Option<Instant>) | Nothing

  function Apply(s: Store, op: Op): Store {
    match op
    case SetOp(key, data, expire, now) => s.(entries := s.entries[key := Entry(data, DeadlineOf(expire, now))])
    case GetOp(_) => s
    case PurgeOp(now) => if s.shutdown then s else s.(entries := Purged(s.entries, now))
    case ShutdownOp => s.(shutdown := true)
  }

  ghost function Reply(s: Store, op: Op): Answer {
    match op
    case SetOp(_, _, expire, now) => Notifies(Ahead(s.entries, DeadlineOf(expire, now)))
    case GetOp(key) => Found(if key in s.entries then Some(s.entries[key].data) else None)
    case PurgeOp(_) => Next(if s.shutdown then None else Earliest(Apply(s, op).entries))
    case ShutdownOp => Nothing
  }

  function Run(ops: seq<Op>): Store {
    if ops == [] then EMPTY else Apply(Run(ops[..|ops| - 1]), ops[|ops| - 1])
  }

  lemma RunNothing()
    ensures Run([]) == EMPTY
  {
  }

  lemma RunStep(ops: seq<Op>, i: nat)
    requires i < |ops|
    ensures Run(ops[..i + 1]) == Apply(Run(ops[..i]), ops[i])
  {
    assert ops[..i + 1][..i] == ops[..i];
  }

  // ----- the index -----

  ghost function Index(entries: map<Key, Entry>): set<(Instant, Key)> {
    set k | k in entries && entries[k].expiresAt.Some? :: (entries[k].expiresAt.value, k)
  }

  lemma Indexed(entries: map<Key, Entry>, pair: (Instant, Key))
    ensures pair in Index(entries) <==> Expires(entries, pair.1, pair.0)
  {
  }

  predicate Least(index: set<(Instant, Key)>, e: (Instant, Key)) {
    e in index && forall f :: f in index ==> e.0 <= f.0
  }

  lemma {:induction false} LeastExists(index: set<(Instant, Key)>) returns (e: (Instant, Key))
    requires index != {}
    ensures Least(index, e)
  {
    e :| e in index;
    if index != {e} {
      var e' := LeastExists(index - {e});
      forall f | f in index
        ensures f == e || e'.0 <= f.0
      {
      }
      if e'.0 < e.0 {
        e := e';
      }
    }
  }

  lemma LeastIsEarliest(entries: map<Key, Entry>, e: (Instant, Key))
    requires Least(Index(entries), e)
    ensures Expires(entries, e.1, e.0) && IsEarliest(entries, Some(e.0))
  {
    Indexed(entries, e);
    forall k, at: Instant | Expires(entries, k, at)
      ensures e.0 <= at
    {
      Indexed(entries, (at, k));
    }
  }

  lemma NothingIndexed(entries: map<Key, Entry>)
    requires Index(entries) == {}
    ensures IsEarliest(entries, None)
  {
    forall k, at: Instant
      ensures !Expires(entries, k, at)
    {
      Indexed(entries, (at, k));
    }
  }

  /** Dropping a key that expires takes its pair out of the index. */
  lemma IndexWithout(entries: map<Key, Entry>, key: Key)
    requires key in entries && entries[key].expiresAt.Some?
    ensures Index(entries - {key}) == Index(entries) - {(entries[key].expiresAt.value, key)}
  {
    hide Index;
    forall pair: (Instant, Key)
      ensures pair in Index(entries - {key}) <==> pair in Index(entries) && pair != (entries[key].expiresAt.value, key)
    {
      Indexed(entries, pair);
      Indexed(entries - {key}, pair);
    }
  }

  /** Replacing an entry takes the pair of the old one out, then puts the pair of the new one in. */
  lemma IndexWith(entries: map<Key, Entry>, key: Key, e: Entry)
    ensures Index(entries[key := e]) ==
            Index(entries)
            - (if key in entries && entries[key].expiresAt.Some? then {(entries[key].expiresAt.value, key)} else {})
            + (if e.expiresAt.Some? then {(e.expiresAt.value, key)} else {})
  {
    hide Index;
    forall pair: (Instant, Key)
      ensures pair in Index(entries[key := e]) <==>
        if pair.1 == key then e.expiresAt == Some(pair.0) else pair in Index(entries)
      ensures pair in Index(entries) && pair.1 == key ==> key in entries && entries[key].expiresAt == Some(pair.0)
    {
      Indexed(entries, pair);
      Indexed(entries[key := e], pair);
    }
  }

  lemma NoneDue(entries: map<Key, Entry>, when: Instant, now: Instant)
    requires IsEarliest(entries, Some(when)) && when > now
    ensures Purged(entries, now) == entries
  {
    forall k | k in entries
      ensures !Due(entries[k], now)
    {
      if entries[k].expiresAt.Some? {
        assert Expires(entries, k, entries[k].expiresAt.value);
      }
    }
  }

  lemma NothingTracked(entries: map<Key, Entry>, now: Instant)
    requires IsEarliest(entries, None)
    ensures Purged(entries, now) == entries
  {
    forall k | k in entries
      ensures !Due(entries[k], now)
    {
      if entries[k].expiresAt.Some? {
        assert Expires(entries, k, entries[k].expiresAt.value);
      }
    }
  }

  class Db {
    var entries: map<Key, Entry>
    var expirations: set<(Instant, Key)>
    var shutdown: bool

    constructor ()
      ensures Valid() && View() == EMPTY
    {
      entries, expirations, shutdown := map[], {}, false;
    }

    /** The index holds exactly the deadlines of the entries. */
    ghost predicate Valid()
      reads this
    {
      expirations == Index(entries)
    }

    ghost function View(): Store
      reads this
    {
      Store(entries, shutdown)
    }

    method NextExpiration() returns (when: Option<Instant>)
      requires Valid()
      ensures when == Earliest(entries)
    {
      if expirations == {} {
        NothingIndexed(entries);
        when := None;
      } else {
        ghost var _ := LeastExists(expirations);
        var first: (Instant, Key) :| Least(expirations, first);
        LeastIsEarliest(entries, first);
        when := Some(first.0);
      }
      EarliestIsUnique(entries, when, Earliest(entries));
    }

    method Get(key: Key) returns (data: Option<seq<byte>>)
      requires Valid()
      ensures Found(data) == Reply(View(), GetOp(key))
    {
      data := if key in entries then Some(entries[key].data) else None;
    }

    /** Replaces the entry of key; tells whether the purge task must be notified. */
    method Set(key: Key, value: seq<byte>, expire: Option<nat>, now: Instant) returns (notify: bool)
      requires Valid()
      modifies this
      ensures Valid() && View() == Apply(old(View()), SetOp(key, value, expire, now))
      ensures Notifies(notify) == Reply(old(View()), SetOp(key, value, expire, now))
    {
      notify := false;
      var expiresAt: Option<Instant> := None;
      if expire.Some? {
        var when := now + expire.value;
        var next := NextExpiration();
        notify := if next.Some? then next.value > when else true;
        expiresAt := Some(when);
      }
      IndexWith(entries, key, Entry(value, expiresAt));
      var prev := if key in entries then Some(entries[key]) else None;
      entries := entries[key := Entry(value, expiresAt)];
      if prev.Some? && prev.value.expiresAt.Some? {
        expirations := expirations - {(prev.value.expiresAt.value, key)};
      }
      if expiresAt.Some? {
        expirations := expirations + {(expiresAt.value, key)};
      }
    }

    /** Drops the keys due by now and returns the deadline to wait for next. */
    method PurgeExpiredKeys(now: Instant) returns (when: Option<Instant>)
      requires Valid()
      modifies this
      ensures Valid() && View() == Apply(old(View()), PurgeOp(now))
      ensures Next(when) == Reply(old(View()), PurgeOp(now))
    {
      if shutdown {
        return None;
      }
      while expirations != {}
        invariant Valid() && shutdown == old(shutdown)
        invariant Purged(entries, now) == Purged(old(entries), now)
        decreases expirations
      {
        ghost var _ := LeastExists(expirations);
        var first: (Instant, Key) :| Least(expirations, first);
        LeastIsEarliest(entries, first);
        if first.0 > now {
          NoneDue(entries, first.0, now);
          EarliestIsUnique(entries, Some(first.0), Earliest(entries));
          return Some(first.0);
        }
        IndexWithout(entries, first.1);
        entries := entries - {first.1};
        expirations := expirations - {first};
      }
      NothingIndexed(entries);
      EarliestIsUnique(entries, None, Earliest(entries));
      NothingTracked(entries, now);
      when := None;
    }

    method ShutdownPurgeTask()
      requires Valid()
      modifies this
      ensures Valid() && View() == Apply(old(View()), ShutdownOp)
    {
      shutdown := true;
    }

    /** Any sequence of operations on a new store: the index never shows. */
    static method Execute(ops: seq<Op>) returns (db: Db, answers: seq<Answer>)
      ensures fresh(db) && db.Valid() && db.View() == Run(ops)
      ensures |answers| == |ops| && forall i :: 0 <= i < |ops| ==> answers[i] == Reply(Run(ops[..i]), ops[i])
      ensures forall i :: 0 <= i < |ops| ==> Explains(ops, i, answers[i])
    {
      hide Run, Earliest, Explains;
      db := new Db();
      answers := [];
      RunNothing();
      for i := 0 to |ops|
        invariant fresh(db) && db.Valid() && db.View() == Run(ops[..i])
        invariant |answers| == i && forall j :: 0 <= j < i ==> answers[j] == Reply(Run(ops[..j]), ops[j])
        invariant forall j :: 0 <= j < i ==> Explains(ops, j, answers[j])
      {
        RunStep(ops, i);
        var answer;
        match ops[i] {
          case SetOp(key, data, expire, now) =>
            var notify := db.Set(key, data, expire, now);
            answer := Notifies(notify);
          case GetOp(key) =>
            var data := db.Get(key);
            answer := Found(data);
          case PurgeOp(now) =>
            var when := db.PurgeExpiredKeys(now);
            answer := Next(when);
          case ShutdownOp =>
            db.ShutdownPurgeTask();
            answer := Nothing;
        }
        answers := answers + [answer];
        ReplyExplained(ops, i);
      }
      assert ops[..|ops|] == ops;
    }
  }

  // ----- what a history of operations leaves -----

  predicate Sets(op: Op, key: Key) {
    op.SetOp? && op.key == key
  }

  /** The operation at i is the last that sets key. */
  ghost predicate LastSet(ops: seq<Op>, key: Key, i: nat) {
    i < |ops| && Sets(ops[i], key) && forall j: nat :: i < j < |ops| ==> !Sets(ops[j], key)
  }

  /** The operation at j purges what the set at i has set, its time being over. */
  ghost predicate PurgesAt(ops: seq<Op>, j: nat, i: nat)
    requires i < |ops| && ops[i].SetOp?
  {
    && j < |ops| && ops[j].PurgeOp? && ShutdownOp !in ops[..j]
    && ops[i].expire.Some? && ops[i].now + ops[i].expire.value <= ops[j].now
  }

  /** The set at i is what key stands for at the end of the history. */
  ghost predicate Stands(ops: seq<Op>, key: Key, i: nat) {
    LastSet(ops, key, i) && forall j: nat :: i < j < |ops| ==> !PurgesAt(ops, j, i)
  }

  predicate Holds(s: Store, key: Key, op: Op)
    requires op.SetOp?
  {
    && key in s.entries && s.entries[key].data == op.data
    && s.entries[key].expiresAt == if op.expire.Some? then Some(op.now + op.expire.value) else None
  }

  lemma {:induction false} ShutdownStays(ops: seq<Op>)
    ensures Run(ops).shutdown <==> ShutdownOp in ops
    decreases |ops|
  {
    if ops != [] {
      var n := |ops| - 1;
      ShutdownStays(ops[..n]);
      assert ops == ops[..n] + [ops[n]];
    }
  }

  /** A key has the value of the last set of it, unless a purge came after the deadline of that set; it has
      no value otherwise. */
  lemma {:induction false} HistoryOfKey(ops: seq<Op>, key: Key)
    ensures key in Run(ops).entries <==> exists i: nat :: Stands(ops, key, i)
    ensures forall i: nat :: Stands(ops, key, i) ==> Holds(Run(ops), key, ops[i])
    decreases |ops|
  {
    if ops != [] {
      var n := |ops| - 1;
      var before, op := ops[..n], ops[n];
      HistoryOfKey(before, key);
      ShutdownStays(before);
      if Sets(op, key) {
        assert Stands(ops, key, n);
      } else {
        forall i: nat | i < n && ops[i].SetOp?
          ensures Stands(ops, key, i) <==>
            Stands(before, key, i) && !PurgesAt(ops, n, i)
        {
          StandsLonger(ops, key, i);
        }
        assert !Stands(ops, key, n);
      }
    }
  }

  lemma StandsLonger(ops: seq<Op>, key: Key, i: nat)
    requires i < |ops| - 1 && !Sets(ops[|ops| - 1], key) && ops[i].SetOp?
    ensures var n := |ops| - 1;
      Stands(ops, key, i) <==> Stands(ops[..n], key, i) && !PurgesAt(ops, n, i)
  {
    var n := |ops| - 1;
    var before := ops[..n];
    forall j: nat | i < j < n
      ensures PurgesAt(before, j, i) == PurgesAt(ops, j, i) && Sets(before[j], key) == Sets(ops[j], key)
    {
      assert before[..j] == ops[..j];
    }
    if LastSet(before, key, i) {
      assert forall j: nat :: i < j < n ==> !Sets(before[j], key);
      assert LastSet(ops, key, i);
    }
  }

  // ----- what the answers tell -----

  /** A set of key that stands ends at an instant. */
  ghost predicate Tracked(ops: seq<Op>, key: Key, at: Instant) {
    exists i: nat :: Stands(ops, key, i) && ops[i].expire.Some? && ops[i].now + ops[i].expire.value == at
  }

  lemma TrackedExpires(ops: seq<Op>, key: Key, at: Instant)
    ensures Tracked(ops, key, at) <==> Expires(Run(ops).entries, key, at)
  {
    hide Run, Stands;
    HistoryOfKey(ops, key);
  }

  /** An instant is before the ends of all sets that stand. */
  ghost predicate AheadOfAll(ops: seq<Op>, when: Instant) {
    forall k, at: Instant :: Tracked(ops, k, at) ==> when < at
  }

  /** The first instant at which a set that stands ends. */
  ghost predicate FirstEnd(ops: seq<Op>, when: Option<Instant>) {
    match when
    case None => forall k, at: Instant :: !Tracked(ops, k, at)
    case Some(t) => (exists k :: Tracked(ops, k, t)) && forall k, at: Instant :: Tracked(ops, k, at) ==> t <= at
  }

  /** What the operation at i must answer, by the history before it: a get the data of the set that stands; a set
      whether its deadline is ahead of all others; a purge the earliest deadline left, unless it is shut down. */
  ghost predicate Explains(ops: seq<Op>, i: nat, answer: Answer)
    requires i < |ops|
  {
    match ops[i]
    case GetOp(key) =>
      && (forall j: nat :: Stands(ops[..i], key, j) ==> answer == Found(Some(ops[j].data)))
      && ((forall j: nat :: !Stands(ops[..i], key, j)) ==> answer == Found(None))
    case SetOp(_, _, expire, now) =>
      answer == Notifies(expire.Some? && AheadOfAll(ops[..i], now + expire.value))
    case PurgeOp(_) =>
      if ShutdownOp in ops[..i] then answer == Next(None)
      else answer.Next? && FirstEnd(ops[..i + 1], answer.when)
    case ShutdownOp => answer == Nothing
  }

  lemma EndsAreDeadlines(ops: seq<Op>, when: Option<Instant>)
    ensures FirstEnd(ops, when) <==> IsEarliest(Run(ops).entries, when)
    ensures when.Some? ==> (AheadOfAll(ops, when.value) <==> Ahead(Run(ops).entries, when))
  {
    hide Run, Tracked, Expires;
    var entries := Run(ops).entries;
    forall k, at: Instant
      ensures Tracked(ops, k, at) <==> Expires(entries, k, at)
    {
      TrackedExpires(ops, k, at);
    }
  }

  lemma ReplyExplained(ops: seq<Op>, i: nat)
    requires i < |ops|
    ensures Explains(ops, i, Reply(Run(ops[..i]), ops[i]))
  {
    hide Run, PurgesAt, FirstEnd, AheadOfAll, Ahead, IsEarliest;
    var before := ops[..i];
    match ops[i]
    case GetOp(key) => HistoryOfKey(before, key);
    case SetOp(_, _, expire, now) =>
      if expire.Some? {
        EndsAreDeadlines(before, Some(now + expire.value));
      } else {
        NotAhead(before);
      }
    case PurgeOp(_) =>
      ShutdownStays(before);
      RunStep(ops, i);
      EndsAreDeadlines(ops[..i + 1], Reply(Run(before), ops[i]).when);
    case ShutdownOp =>
  }

  lemma NotAhead(ops: seq<Op>)
    ensures !Ahead(Run(ops).entries, None)
  {
  }
}
