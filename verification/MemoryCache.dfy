/**
 `MemoryCache` of `internal/cache/memory.go`: values with expiry times, deleted lazily, and a
 running count of the bytes held. Times are instants of one clock; each operation is given
 the instants it reads.
 */
module MemoryCaching {
  import opened Common
  import opened MapSums

  datatype Entry = Entry(value: Bytes, expiresAt: int, size: int)

  type Entries = map<string, Entry>

  datatype CacheError = Closed | Miss

  predicate Expired(e: Entry, now: int)
  {
    now > e.expiresAt
  }

  // ---------- The byte count ----------

  function ValueLength(e: Entry): nat
  {
    |e.value|
  }

  /** The bytes of all stored values, expired or not. */
  ghost function BytesHeld(data: Entries): nat
  {
    SumOf(data, ValueLength)
  }

  // ---------- What a caller can see ----------

  function ValueAt(data: Entries, key: string, now: int): Option<Bytes>
  {
    if key in data && !Expired(data[key], now) then Some(data[key].value) else None
  }

  /**
   `data` is `full`, a map from which nothing is ever dropped for having expired, less some
   entries that have expired by `now`.
   */
  ghost predicate Prunes(data: Entries, full: Entries, now: int)
  {
    && (forall k :: k in data ==> k in full && data[k] == full[k])
    && (forall k :: k in full && k !in data ==> Expired(full[k], now))
  }

  /** From then on both show the same values under every key. */
  lemma PrunedLooksFull(data: Entries, full: Entries, now: int, key: string, later: int)
    requires Prunes(data, full, now) && now <= later
    ensures ValueAt(data, key, later) == ValueAt(full, key, later)
  {
  }

  /** What `removeExpired` leaves. */
  function Unexpired(data: Entries, now: int): Entries
  {
    map k | k in data && !Expired(data[k], now) :: data[k]
  }

  function WithPrefix(data: Entries, prefix: string): set<string>
  {
    set k | k in data && prefix <= k
  }

  // ---------- Operations, as functions of what is stored ----------

  /** An operation with the clock readings it makes. `Cleanup` is a tick of the cleanup loop. */
  datatype Op =
    | Get(key: string, now: int)
    | Has(key: string, now: int)
    | Set(key: string, value: Bytes, ttl: int, now: int, later: int)
    | Delete(key: string)
    | DeleteByPrefix(prefix: string)
    | Clear
    | Close
    | Cleanup(now: int)

  datatype Answer = Value(v: Result<Bytes, CacheError>) | Present(p: Result<bool, CacheError>) | Done(d: Result<(), CacheError>)

  datatype State = State(data: Entries, closed: bool)

  function NewEntry(value: Bytes, ttl: int, later: int, defaultTTL: int): Entry
  {
    Entry(value, later + (if ttl == 0 then defaultTTL else ttl), |value|)
  }

  /** The answer of an operation, which only depends on what is visible. */
  function AnswerOf(s: State, op: Op): Answer
  {
    match op
    case Get(key, now) =>
      Value(if s.closed then Err(Closed)
            else match ValueAt(s.data, key, now) case Some(v) => Ok(v) case None => Err(Miss))
    case Has(key, now) => Present(if s.closed then Err(Closed) else Ok(ValueAt(s.data, key, now).Some?))
    case Close => Done(Ok(()))
    case Cleanup(_) => Done(Ok(()))
    case _ => Done(if s.closed then Err(Closed) else Ok(()))
  }

  /** Reaching `maxSize` only drops expired entries. */
  function Pruned(data: Entries, now: int, maxSize: int): Entries
  {
    if 0 < maxSize <= |data| then Unexpired(data, now) else data
  }

  /** Lookups delete the expired entry they meet. */
  function Touched(data: Entries, key: string, now: int): Entries
  {
    if key in data && Expired(data[key], now) then data - {key} else data
  }

  /** The cache: lazy deletion on lookups, and pruning when `Set` finds it at capacity. */
  function Next(s: State, op: Op, defaultTTL: int, maxSize: int): State
  {
    match op
    case Close => s.(closed := true)
    case Cleanup(now) => s.(data := Unexpired(s.data, now))
    case Get(key, now) => if s.closed then s else s.(data := Touched(s.data, key, now))
    case Has(key, now) => if s.closed then s else s.(data := Touched(s.data, key, now))
    case Set(key, value, ttl, now, later) =>
      if s.closed then s else
        s.(data := Pruned(s.data, now, maxSize)[key := NewEntry(value, ttl, later, defaultTTL)])
    case Delete(key) => if s.closed then s else s.(data := s.data - {key})
    case DeleteByPrefix(prefix) => if s.closed then s else s.(data := s.data - WithPrefix(s.data, prefix))
    case Clear => if s.closed then s else s.(data := map[])
  }

  /** The simple map: nothing is ever removed for having expired. */
  function NextFull(s: State, op: Op, defaultTTL: int): State
  {
    match op
    case Close => s.(closed := true)
    case Cleanup(_) => s
    case Get(_, _) => s
    case Has(_, _) => s
    case Set(key, value, ttl, _, later) =>
      if s.closed then s else s.(data := s.data[key := NewEntry(value, ttl, later, defaultTTL)])
    case Delete(key) => if s.closed then s else s.(data := s.data - {key})
    case DeleteByPrefix(prefix) => if s.closed then s else s.(data := s.data - WithPrefix(s.data, prefix))
    case Clear => if s.closed then s else s.(data := map[])
  }

  // ---------- The object ----------

  class MemoryCache {
    var data: Entries
    var size: int
    var closed: bool
    const defaultTTL: int
    const maxSize: int

    ghost function View(): State
      reads this
    {
      State(data, closed)
    }

    ghost predicate Valid()
      reads this
    {
      && (forall k :: k in data ==> data[k].size == |data[k].value|)
      && size == BytesHeld(data)
    }

    constructor (defaultTTL: int, maxSize: int)
      ensures Valid() && data == map[] && !closed
      ensures this.defaultTTL == defaultTTL && this.maxSize == maxSize
    {
      data, size, closed := map[], 0, false;
      this.defaultTTL, this.maxSize := defaultTTL, maxSize;
    }

    /** Deletes the entry it was handed, if the key is still there. */
    method DeleteEntry(key: string, entry: Entry)
      requires Valid() && (key in data ==> data[key] == entry)
      modifies this`data, this`size
      ensures Valid() && data == old(data) - {key}
    {
      if key in data {
        SumTakesOut(data, ValueLength, key);
        data := data - {key};
        size := size - entry.size;
      } else {
        assert data - {key} == data;
      }
    }

    method Get(key: string, now: int) returns (r: Result<Bytes, CacheError>)
      requires Valid()
      modifies this
      ensures Valid() && View() == Next(old(View()), Op.Get(key, now), defaultTTL, maxSize)
      ensures Value(r) == AnswerOf(old(View()), Op.Get(key, now))
    {
      if closed {
        return Err(Closed);
      }
      if key !in data {
        return Err(Miss);
      }
      var entry := data[key];
      if now > entry.expiresAt {
        DeleteEntry(key, entry);
        return Err(Miss);
      }
      return Ok(entry.value);
    }

    method Has(key: string, now: int) returns (r: Result<bool, CacheError>)
      requires Valid()
      modifies this
      ensures Valid() && View() == Next(old(View()), Op.Has(key, now), defaultTTL, maxSize)
      ensures Present(r) == AnswerOf(old(View()), Op.Has(key, now))
    {
      if closed {
        return Err(Closed);
      }
      if key !in data {
        return Ok(false);
      }
      var entry := data[key];
      if now > entry.expiresAt {
        DeleteEntry(key, entry);
        return Ok(false);
      }
      return Ok(true);
    }

    /** Runs on the cleanup ticker too, closed or not. */
    method RemoveExpired(now: int)
      requires Valid()
      modifies this`data, this`size
      ensures Valid() && View() == Next(old(View()), Op.Cleanup(now), defaultTTL, maxSize)
    {
      var remaining := data.Keys;
      while remaining != {}
        invariant Valid() && remaining <= old(data).Keys
        invariant data == map k | k in old(data) && (k in remaining || !Expired(old(data)[k], now)) :: old(data)[k]
        decreases |remaining|
      {
        var key :| key in remaining;
        var entry := data[key];
        if now > entry.expiresAt {
          DeleteEntry(key, entry);
        }
        remaining := remaining - {key};
      }
    }

    /** The capacity check of `Set`. */
    method Prune(now: int)
      requires Valid()
      modifies this`data, this`size
      ensures Valid() && data == Pruned(old(data), now, maxSize)
    {
      if maxSize > 0 {
        var count := |data|;
        if count >= maxSize {
          RemoveExpired(now);
        }
      }
    }

    /** `now` is read by `removeExpired` and `later` for the new entry, which is stored in any case. */
    method Set(key: string, value: Bytes, ttl: int, now: int, later: int) returns (r: Result<(), CacheError>)
      requires Valid() && now <= later
      modifies this
      ensures Valid() && View() == Next(old(View()), Op.Set(key, value, ttl, now, later), defaultTTL, maxSize)
      ensures Done(r) == AnswerOf(old(View()), Op.Set(key, value, ttl, now, later))
    {
      if closed {
        return Err(Closed);
      }
      var lifetime := if ttl == 0 then defaultTTL else ttl;
      Prune(now);
      Swap(key, Entry(value, later + lifetime, |value|));
      return Ok(());
    }

    /** The last part of `Set`: the old entry's bytes go, the new one's come. */
    method Swap(key: string, entry: Entry)
      requires Valid() && entry.size == |entry.value|
      modifies this`data, this`size
      ensures Valid() && data == old(data)[key := entry]
    {
      SumUpdates(data, ValueLength, key, entry);
      if key in data {
        size := size - data[key].size;
      }
      data := data[key := entry];
      size := size + entry.size;
    }

    method Delete(key: string) returns (r: Result<(), CacheError>)
      requires Valid()
      modifies this
      ensures Valid() && View() == Next(old(View()), Op.Delete(key), defaultTTL, maxSize)
      ensures Done(r) == AnswerOf(old(View()), Op.Delete(key))
    {
      if closed {
        return Err(Closed);
      }
      if key in data {
        DeleteEntry(key, data[key]);
      } else {
        assert data - {key} == data;
      }
      return Ok(());
    }

    method Clear() returns (r: Result<(), CacheError>)
      requires Valid()
      modifies this
      ensures Valid() && View() == Next(old(View()), Op.Clear, defaultTTL, maxSize)
      ensures Done(r) == AnswerOf(old(View()), Op.Clear)
    {
      if closed {
        return Err(Closed);
      }
      while data != map[]
        invariant !closed && !old(closed)
        decreases |data|
      {
        var key := AnyKey(data);
        data := data - {key};
      }
      size := 0;
      return Ok(());
    }

    method DeleteByPrefix(prefix: string) returns (r: Result<(), CacheError>)
      requires Valid()
      modifies this
      ensures Valid() && View() == Next(old(View()), Op.DeleteByPrefix(prefix), defaultTTL, maxSize)
      ensures Done(r) == AnswerOf(old(View()), Op.DeleteByPrefix(prefix))
    {
      if closed {
        return Err(Closed);
      }
      var remaining := data.Keys;
      while remaining != {}
        invariant Valid() && !closed && !old(closed) && remaining <= old(data).Keys
        invariant data == map k | k in old(data) && (k in remaining || !(prefix <= k)) :: old(data)[k]
        decreases |remaining|
      {
        var k :| k in remaining;
        if |k| >= |prefix| && k[..|prefix|] == prefix {
          DeleteEntry(k, data[k]);
        }
        remaining := remaining - {k};
      }
      return Ok(());
    }

    method Close()
      requires Valid()
      modifies this`closed
      ensures Valid() && View() == Next(old(View()), Op.Close, defaultTTL, maxSize)
    {
      closed := true;
    }
  }

  // ---------- Runs ----------

  /** The clock at the end of an operation that started no earlier than `clock`. */
  function ClockAfter(op: Op, clock: int): int
  {
    match op
    case Get(_, now) => now
    case Has(_, now) => now
    case Set(_, _, _, _, later) => later
    case Cleanup(now) => now
    case _ => clock
  }

  /** The clock does not run backwards. */
  predicate Timely(op: Op, clock: int)
  {
    match op
    case Set(_, _, _, now, later) => clock <= now <= later
    case _ => clock <= ClockAfter(op, clock)
  }

  ghost predicate Refines(s: State, full: State, clock: int)
  {
    s.closed == full.closed && Prunes(s.data, full.data, clock)
  }

  lemma PrunesLater(data: Entries, full: Entries, clock: int, now: int)
    requires Prunes(data, full, clock) && clock <= now
    ensures Prunes(data, full, now)
    ensures Prunes(Unexpired(data, now), full, now)
  {
  }

  /** One operation: the same answer, and still only expired entries are missing. */
  lemma StepRefines(s: State, full: State, clock: int, op: Op, defaultTTL: int, maxSize: int)
    requires Refines(s, full, clock) && Timely(op, clock)
    ensures AnswerOf(s, op) == AnswerOf(full, op)
    ensures Refines(Next(s, op, defaultTTL, maxSize), NextFull(full, op, defaultTTL), ClockAfter(op, clock))
  {
    match op
    case Get(key, now) => PrunedLooksFull(s.data, full.data, clock, key, now);
    case Has(key, now) => PrunedLooksFull(s.data, full.data, clock, key, now);
    case Set(_, _, _, now, later) =>
      PrunesLater(s.data, full.data, clock, now);
      PrunesLater(s.data, full.data, clock, later);
      PrunesLater(Unexpired(s.data, now), full.data, now, later);
    case Cleanup(now) => PrunesLater(s.data, full.data, clock, now);
    case _ =>
  }

  /** What a caller sees under `key` after an operation, from what was seen before it. */
  function SeenAfter(s: State, op: Op, key: string, at: int, defaultTTL: int): Option<Bytes>
  {
    var before := ValueAt(s.data, key, at);
    if s.closed then before else
    match op
    case Set(k, value, ttl, _, later) =>
      if k != key then before
      else if at <= later + (if ttl == 0 then defaultTTL else ttl) then Some(value)
      else None
    case Delete(k) => if k == key then None else before
    case DeleteByPrefix(prefix) => if prefix <= key then None else before
    case Clear => None
    case _ => before
  }

  /**
   An operation changes what later lookups see only by what it was asked: a stored value
   shows for its lifetime, a deleted one never, and everything else shows on.
   */
  lemma OperationsShowWhatWasAsked(s: State, op: Op, clock: int, key: string, at: int, defaultTTL: int, maxSize: int)
    requires Timely(op, clock) && ClockAfter(op, clock) <= at
    ensures ValueAt(Next(s, op, defaultTTL, maxSize).data, key, at) == SeenAfter(s, op, key, at, defaultTTL)
  {
    match op
    case Cleanup(now) => SweepShowsNoChange(s.data, now, key, at);
    case Set(_, _, _, now, _) => SweepShowsNoChange(s.data, now, key, at);
    case _ =>
  }

  // ---------- What lookups answer ----------

  ghost function FinalState(s: State, ops: seq<Op>, defaultTTL: int, maxSize: int): State
    decreases |ops|
  {
    if ops == [] then s else FinalState(Next(s, ops[0], defaultTTL, maxSize), ops[1..], defaultTTL, maxSize)
  }

  ghost function FinalClock(ops: seq<Op>, clock: int): int
    decreases |ops|
  {
    if ops == [] then clock else FinalClock(ops[1..], ClockAfter(ops[0], clock))
  }

  /** The answer of a call is that of the state the run before it left. */
  lemma {:induction false} LastAnswer(s: State, ops: seq<Op>, op: Op, defaultTTL: int, maxSize: int)
    requires !op.Cleanup?
    ensures Answers(s, ops + [op], defaultTTL, maxSize)
         == Answers(s, ops, defaultTTL, maxSize) + [AnswerOf(FinalState(s, ops, defaultTTL, maxSize), op)]
    decreases |ops|
  {
    var all := ops + [op];
    if ops == [] {
      assert all == [op] && all[1..] == [];
      assert Answers(s, all, defaultTTL, maxSize) == [AnswerOf(s, op)] + [];
    } else {
      assert all[0] == ops[0] && all[1..] == ops[1..] + [op];
      LastAnswer(Next(s, ops[0], defaultTTL, maxSize), ops[1..], op, defaultTTL, maxSize);
    }
  }

  /** The operation neither stores nor deletes the key, and does not close the cache. */
  predicate Leaves(op: Op, key: string)
  {
    match op
    case Set(k, _, _, _, _) => k != key
    case Delete(k) => k != key
    case DeleteByPrefix(prefix) => !(prefix <= key)
    case Clear => false
    case Close => false
    case _ => true
  }

  predicate AllLeave(ops: seq<Op>, key: string)
  {
    forall i :: 0 <= i < |ops| ==> Leaves(ops[i], key)
  }

  ghost predicate HasAnswers(s: State, key: string, at: int, r: Result<bool, CacheError>)
  {
    AnswerOf(s, Op.Has(key, at)) == Present(r)
  }

  ghost predicate GetAnswers(s: State, key: string, at: int, r: Result<Bytes, CacheError>)
  {
    AnswerOf(s, Op.Get(key, at)) == Value(r)
  }

  /** The entry is stored under the key, or has expired by now. */
  ghost predicate HoldsEntry(s: State, key: string, e: Entry, clock: int)
  {
    !s.closed && (if key in s.data then s.data[key] == e else clock > e.expiresAt)
  }

  lemma LeftEntryStays(s: State, op: Op, key: string, e: Entry, clock: int, defaultTTL: int, maxSize: int)
    requires HoldsEntry(s, key, e, clock) && Leaves(op, key) && Timely(op, clock)
    ensures HoldsEntry(Next(s, op, defaultTTL, maxSize), key, e, ClockAfter(op, clock))
  {
  }

  lemma {:induction false} LeftEntryStaysOverRun(s: State, ops: seq<Op>, key: string, e: Entry, clock: int,
                                                 defaultTTL: int, maxSize: int)
    requires HoldsEntry(s, key, e, clock) && AllLeave(ops, key) && AllTimely(ops, clock)
    ensures HoldsEntry(FinalState(s, ops, defaultTTL, maxSize), key, e, FinalClock(ops, clock))
    decreases |ops|
  {
    if ops != [] {
      LeftEntryStays(s, ops[0], key, e, clock, defaultTTL, maxSize);
      assert forall i :: 0 <= i < |ops[1..]| ==> ops[1..][i] == ops[i + 1];
      LeftEntryStaysOverRun(Next(s, ops[0], defaultTTL, maxSize), ops[1..], key, e, ClockAfter(ops[0], clock),
                            defaultTTL, maxSize);
    }
  }

  /**
   In an open cache a stored value is answered for exactly its lifetime, over every run that
   does not touch its key, wherever entries are dropped meanwhile.
   */
  lemma StoredValueIsAnswered(s: State, key: string, value: Bytes, ttl: int, now: int, later: int,
                              ops: seq<Op>, at: int, defaultTTL: int, maxSize: int)
    requires !s.closed && now <= later && AllLeave(ops, key) && AllTimely(ops, later) && FinalClock(ops, later) <= at
    ensures var lifetime := if ttl == 0 then defaultTTL else ttl;
            var s' := FinalState(Next(s, Op.Set(key, value, ttl, now, later), defaultTTL, maxSize), ops, defaultTTL, maxSize);
            if at <= later + lifetime
            then HasAnswers(s', key, at, Ok(true)) && GetAnswers(s', key, at, Ok(value))
            else HasAnswers(s', key, at, Ok(false)) && GetAnswers(s', key, at, Err(Miss))
  {
    var s1 := Next(s, Op.Set(key, value, ttl, now, later), defaultTTL, maxSize);
    LeftEntryStaysOverRun(s1, ops, key, NewEntry(value, ttl, later, defaultTTL), later, defaultTTL, maxSize);
  }

  lemma {:induction false} AbsentStaysAbsent(s: State, ops: seq<Op>, key: string, defaultTTL: int, maxSize: int)
    requires !s.closed && key !in s.data && AllLeave(ops, key)
    ensures var s' := FinalState(s, ops, defaultTTL, maxSize); !s'.closed && key !in s'.data
    decreases |ops|
  {
    if ops != [] {
      assert forall i :: 0 <= i < |ops[1..]| ==> ops[1..][i] == ops[i + 1];
      AbsentStaysAbsent(Next(s, ops[0], defaultTTL, maxSize), ops[1..], key, defaultTTL, maxSize);
    }
  }

  /** A key that was never stored is not answered, at any time. */
  lemma NeverStoredIsMissing(ops: seq<Op>, key: string, at: int, defaultTTL: int, maxSize: int)
    requires AllLeave(ops, key)
    ensures var s' := FinalState(State(map[], false), ops, defaultTTL, maxSize);
            HasAnswers(s', key, at, Ok(false)) && GetAnswers(s', key, at, Err(Miss))
  {
    AbsentStaysAbsent(State(map[], false), ops, key, defaultTTL, maxSize);
  }

  /** Nor is one that was deleted, by itself, by a prefix of it or with all others. */
  lemma DeletedIsMissing(s: State, op: Op, ops: seq<Op>, key: string, at: int, defaultTTL: int, maxSize: int)
    requires !s.closed && AllLeave(ops, key)
    requires op == Op.Delete(key) || op == Op.Clear || (op.DeleteByPrefix? && op.prefix <= key)
    ensures var s' := FinalState(Next(s, op, defaultTTL, maxSize), ops, defaultTTL, maxSize);
            HasAnswers(s', key, at, Ok(false)) && GetAnswers(s', key, at, Err(Miss))
  {
    AbsentStaysAbsent(Next(s, op, defaultTTL, maxSize), ops, key, defaultTTL, maxSize);
  }

  /** What an operation on a closed cache is told. */
  ghost predicate ToldClosed(s: State, op: Op)
  {
    match op
    case Get(_, _) => AnswerOf(s, op) == Value(Err(Closed))
    case Has(_, _) => AnswerOf(s, op) == Present(Err(Closed))
    case Close => AnswerOf(s, op) == Done(Ok(()))
    case Cleanup(_) => AnswerOf(s, op) == Done(Ok(()))
    case _ => AnswerOf(s, op) == Done(Err(Closed))
  }

  /** After `Close` every operation is refused, whatever happens in between; closing again is no error. */
  lemma {:induction false} ClosedIsForever(s: State, ops: seq<Op>, op: Op, defaultTTL: int, maxSize: int)
    requires s.closed
    ensures ToldClosed(FinalState(s, ops, defaultTTL, maxSize), op)
    decreases |ops|
  {
    if ops != [] {
      ClosedIsForever(Next(s, ops[0], defaultTTL, maxSize), ops[1..], op, defaultTTL, maxSize);
    }
  }

  /** An open cache refuses no operation that stores or deletes. */
  lemma OpenAccepts(s: State, op: Op)
    requires !s.closed && !op.Get? && !op.Has?
    ensures AnswerOf(s, op) == Done(Ok(()))
  {
  }

  /** Which of the stored keys an operation leaves in memory. */
  ghost predicate StaysInMemory(s: State, op: Op, key: string, maxSize: int)
    requires key in s.data
  {
    var e := s.data[key];
    match op
    case Cleanup(now) => now <= e.expiresAt
    case Get(k, now) => s.closed || k != key || now <= e.expiresAt
    case Has(k, now) => s.closed || k != key || now <= e.expiresAt
    case Set(k, _, _, now, _) => s.closed || k == key || maxSize <= 0 || |s.data| < maxSize || now <= e.expiresAt
    case Delete(k) => s.closed || k != key
    case DeleteByPrefix(prefix) => s.closed || !(prefix <= key)
    case Clear => s.closed
    case Close => true
  }

  /** Memory is given back exactly by deletions, by lookups of expired keys, by ticks, and by `Set` at capacity. */
  lemma MemoryAfter(s: State, op: Op, key: string, defaultTTL: int, maxSize: int)
    ensures key in Next(s, op, defaultTTL, maxSize).data
            <==> (op.Set? && op.key == key && !s.closed) || (key in s.data && StaysInMemory(s, op, key, maxSize))
  {
  }

  lemma SweepShowsNoChange(data: Entries, now: int, key: string, at: int)
    requires now <= at
    ensures ValueAt(Unexpired(data, now), key, at) == ValueAt(data, key, at)
  {
  }

  predicate AllTimely(ops: seq<Op>, clock: int)
    decreases |ops|
  {
    ops == [] || (Timely(ops[0], clock) && AllTimely(ops[1..], ClockAfter(ops[0], clock)))
  }

  /** The answers to the callers; cleanup ticks answer nobody. */
  function Answers(s: State, ops: seq<Op>, defaultTTL: int, maxSize: int): seq<Answer>
    decreases |ops|
  {
    if ops == [] then [] else
      (if ops[0].Cleanup? then [] else [AnswerOf(s, ops[0])])
      + Answers(Next(s, ops[0], defaultTTL, maxSize), ops[1..], defaultTTL, maxSize)
  }

  function FullAnswers(s: State, ops: seq<Op>, defaultTTL: int): seq<Answer>
    decreases |ops|
  {
    if ops == [] then [] else
      (if ops[0].Cleanup? then [] else [AnswerOf(s, ops[0])])
      + FullAnswers(NextFull(s, ops[0], defaultTTL), ops[1..], defaultTTL)
  }

  lemma {:induction false} RunRefines(s: State, full: State, clock: int, ops: seq<Op>, defaultTTL: int, maxSize: int)
    requires Refines(s, full, clock) && AllTimely(ops, clock)
    ensures Answers(s, ops, defaultTTL, maxSize) == FullAnswers(full, ops, defaultTTL)
    decreases |ops|
  {
    if ops != [] {
      StepRefines(s, full, clock, ops[0], defaultTTL, maxSize);
      RunRefines(Next(s, ops[0], defaultTTL, maxSize), NextFull(full, ops[0], defaultTTL),
                 ClockAfter(ops[0], clock), ops[1..], defaultTTL, maxSize);
    }
  }

  /** The operations callers make, without the cleanup ticks. */
  function Calls(ops: seq<Op>): seq<Op>
  {
    if ops == [] then [] else (if ops[0].Cleanup? then [] else [ops[0]]) + Calls(ops[1..])
  }

  lemma {:induction false} TicksDoNothingToFull(s: State, ops: seq<Op>, defaultTTL: int)
    ensures FullAnswers(s, ops, defaultTTL) == FullAnswers(s, Calls(ops), defaultTTL)
    decreases |ops|
  {
    if ops != [] {
      TicksDoNothingToFull(NextFull(s, ops[0], defaultTTL), ops[1..], defaultTTL);
      if ops[0].Cleanup? {
        assert Calls(ops) == Calls(ops[1..]);
      } else {
        assert Calls(ops)[0] == ops[0] && Calls(ops)[1..] == Calls(ops[1..]);
      }
    }
  }

  /**
   Where expired entries are removed cannot be seen: two runs of the same calls answer the
   same, whatever their cleanup ticks and whatever their capacities.
   */
  lemma CleanupIsInvisible(ops: seq<Op>, other: seq<Op>, clock: int, defaultTTL: int, maxSize: int, otherSize: int)
    requires AllTimely(ops, clock) && AllTimely(other, clock) && Calls(ops) == Calls(other)
    ensures var start := State(map[], false);
            Answers(start, ops, defaultTTL, maxSize) == Answers(start, other, defaultTTL, otherSize)
  {
    var start := State(map[], false);
    RunRefines(start, start, clock, ops, defaultTTL, maxSize);
    RunRefines(start, start, clock, other, defaultTTL, otherSize);
    TicksDoNothingToFull(start, ops, defaultTTL);
    TicksDoNothingToFull(start, other, defaultTTL);
  }

  /** A tick changes what is seen exactly of entries it finds expired, read at an earlier instant. */
  lemma SweepShowsExactlyWhenBackward(data: Entries, now: int, key: string, at: int)
    ensures ValueAt(Unexpired(data, now), key, at) != ValueAt(data, key, at)
            <==> key in data && at <= data[key].expiresAt < now
  {
  }

  /** Why the clock must not run backwards: a tick may drop what an earlier instant still shows. */
  lemma BackwardClockShowsCleanup()
    ensures var ops := [Op.Set("k", [1], 5, 0, 0), Op.Cleanup(10), Op.Get("k", 3)];
            var calls := [Op.Set("k", [1], 5, 0, 0), Op.Get("k", 3)];
            var start := State(map[], false);
            Calls(ops) == calls && Answers(start, ops, 0, 0) != Answers(start, calls, 0, 0)
  {
    var start := State(map[], false);
    var set5, get3 := Op.Set("k", [1], 5, 0, 0), Op.Get("k", 3);
    var stored := Next(start, set5, 0, 0);
    var swept := Next(stored, Op.Cleanup(10), 0, 0);
    AnswersStep(swept, get3, [], 0, 0);
    AnswersStep(stored, Op.Cleanup(10), [get3], 0, 0);
    AnswersStep(stored, get3, [], 0, 0);
    AnswersStep(start, set5, [Op.Cleanup(10), get3], 0, 0);
    AnswersStep(start, set5, [get3], 0, 0);
    assert [set5] + [Op.Cleanup(10), get3] == [set5, Op.Cleanup(10), get3];
    assert [set5] + [get3] == [set5, get3];
    assert [Op.Cleanup(10)] + [get3] == [Op.Cleanup(10), get3];
    assert [get3] + [] == [get3];
    assert stored.data["k"] == Entry([1], 5, 1) && "k" !in swept.data;
    assert Answers(start, [set5, Op.Cleanup(10), get3], 0, 0)[1] == AnswerOf(swept, get3) == Value(Err(Miss));
    assert Answers(start, [set5, get3], 0, 0)[1] == AnswerOf(stored, get3) == Value(Ok([1]));
  }

  /** Unfolds a run by one operation. */
  lemma AnswersStep(s: State, op: Op, ops: seq<Op>, defaultTTL: int, maxSize: int)
    ensures Answers(s, [op] + ops, defaultTTL, maxSize) ==
            (if op.Cleanup? then [] else [AnswerOf(s, op)]) + Answers(Next(s, op, defaultTTL, maxSize), ops, defaultTTL, maxSize)
    ensures Calls([op] + ops) == (if op.Cleanup? then [] else [op]) + Calls(ops)
  {
    assert ([op] + ops)[1..] == ops;
  }
}
