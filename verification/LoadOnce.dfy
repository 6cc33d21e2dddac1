/**
 The double-checked loading protocol shared by `ConfigCache` and `LanguageCache`
 (`internal/cache/config.go`, `internal/cache/languages.go`), as a state machine over the
 critical sections of any number of concurrent calls.

 A cache is seen here through the row list its fields were built from; the two classes
 tie their own fields to that list.
 */
module LoadOnce {

  import opened Common

  /** The fields under `mu`: the loaded flag, and the rows the other fields derive from. */
  datatype Cache<R> = Cache(loaded: bool, rows: seq<R>)

  /** The fields after construction and after `Invalidate`. */
  function Cleared<R>(): Cache<R>
  {
    Cache(false, [])
  }

  /** `loadAll`: the double check, then the fields from what the query answered. */
  function Load<R>(c: Cache<R>, query: Option<seq<R>>): Cache<R>
  {
    if c.loaded || query.None? then c else Cache(true, query.value)
  }

  // ---------- The machine ----------

  /** Where a call stands, with the history it began in. */
  datatype Phase = Checking | Waiting | Reading

  /**
   A running lookup. `floor` is the database version current when the last `Invalidate`
   before the call finished; `since` is how many had finished by then.
   */
  datatype Call = Call(phase: Phase, floor: nat, since: nat)

  /** The write lock: `Loading` is `loadAll` between its query and its unlock. */
  datatype Lock = Free | Loading(holder: nat, version: nat)

  /**
   What the finished call `id` saw. `ceiling` is the newest version when it read, `until` the
   number of finished invalidations; `hit` says whether the cache was loaded then, and
   `version` names the snapshot it held.
   */
  datatype Answer<R> = Answer(id: nat, floor: nat, ceiling: nat, since: nat, until: nat,
                              hit: bool, version: nat, rows: seq<R>)

  /**
   `history` lists every content the database has had, oldest first. `loads` counts the
   successful `loadAll` queries.
   */
  datatype State<R> = State(history: seq<seq<R>>, cache: Cache<R>, version: nat, lock: Lock,
                            calls: map<nat, Call>, floor: nat, invalidations: nat, loads: nat,
                            answers: seq<Answer<R>>)

  datatype Event<R> =
    | DbWrite(rows: seq<R>)
    | Invalidate
    | Begin(id: nat)
    | Check(id: nat)
    | Recheck(id: nat)
    | Query(id: nat)
    | QueryFails(id: nat)
    | Publish(id: nat)
    | Read(id: nat)

  function Start<R>(db: seq<R>): State<R>
  {
    State([db], Cleared(), 0, Free, map[], 0, 0, 0, [])
  }

  predicate At<R>(s: State<R>, id: nat, phase: Phase)
  {
    id in s.calls && s.calls[id].phase == phase
  }

  /** The version numbers the state mentions exist. */
  predicate Indexed<R>(s: State<R>)
  {
    |s.history| > 0 && (s.lock.Loading? ==> s.lock.version < |s.history|)
  }

  /** Database writes ignore the lock; every section of the cache needs it free. */
  predicate Enabled<R>(s: State<R>, e: Event<R>)
  {
    Indexed(s) &&
    match e
    case DbWrite(_) => true
    case Invalidate => s.lock.Free?
    case Begin(id) => id !in s.calls
    case Check(id) => s.lock.Free? && At(s, id, Checking)
    case Recheck(id) => s.lock.Free? && At(s, id, Waiting) && s.cache.loaded
    case Query(id) => s.lock.Free? && At(s, id, Waiting) && !s.cache.loaded
    case QueryFails(id) => s.lock.Free? && At(s, id, Waiting) && !s.cache.loaded
    case Publish(id) => s.lock.Loading? && s.lock.holder == id && At(s, id, Waiting)
    case Read(id) => s.lock.Free? && At(s, id, Reading)
  }

  function Move<R>(s: State<R>, id: nat, phase: Phase): State<R>
    requires id in s.calls
  {
    s.(calls := s.calls[id := s.calls[id].(phase := phase)])
  }

  /** The final read section: the fields as they are, loaded or not. */
  function Finish<R>(s: State<R>, id: nat): State<R>
    requires id in s.calls && |s.history| > 0
  {
    var c := s.calls[id];
    var a := Answer(id, c.floor, |s.history| - 1, c.since, s.invalidations,
                    s.cache.loaded, s.version, s.cache.rows);
    s.(calls := s.calls - {id}, answers := s.answers + [a])
  }

  function Next<R>(s: State<R>, e: Event<R>): State<R>
    requires Enabled(s, e)
  {
    match e
    case DbWrite(rows) => s.(history := s.history + [rows])
    case Invalidate =>
      s.(cache := Cleared(), floor := |s.history| - 1, invalidations := s.invalidations + 1)
    case Begin(id) => s.(calls := s.calls[id := Call(Checking, s.floor, s.invalidations)])
    case Check(id) => if s.cache.loaded then Finish(s, id) else Move(s, id, Waiting)
    case Recheck(id) => Move(s, id, Reading)
    case Query(id) => s.(lock := Loading(id, |s.history| - 1), loads := s.loads + 1)
    case QueryFails(id) => s.(calls := s.calls - {id})
    case Publish(id) =>
      var s' := Move(s, id, Reading);
      s'.(cache := Load(s.cache, Some(s.history[s.lock.version])), version := s.lock.version, lock := Free)
    case Read(id) => Finish(s, id)
  }

  // ---------- What every step keeps ----------

  /**
   The guarantee of a finished call: a loaded read is one database version, no older than
   the last `Invalidate` finished before the call; an unloaded read is empty, and only an
   `Invalidate` during the call can cause it.
   */
  ghost predicate Exact<R>(history: seq<seq<R>>, a: Answer<R>)
  {
    && a.ceiling < |history|
    && (a.hit ==> a.floor <= a.version <= a.ceiling && a.rows == history[a.version])
    && (!a.hit ==> a.rows == [] && a.since < a.until)
  }

  ghost predicate CallInv<R>(s: State<R>, c: Call)
  {
    && c.floor <= s.floor && c.since <= s.invalidations
    && (c.phase == Reading ==> s.cache.loaded || c.since < s.invalidations)
  }

  ghost predicate LoadBudget<R>(s: State<R>)
  {
    s.loads + (if s.cache.loaded || s.lock.Loading? then 0 else 1) <= s.invalidations + 1
  }

  ghost predicate Inv<R>(s: State<R>)
  {
    && s.floor < |s.history|
    && (s.cache.loaded ==> s.floor <= s.version < |s.history| && s.cache.rows == s.history[s.version])
    && (!s.cache.loaded ==> s.cache.rows == [])
    && (s.lock.Loading? ==> !s.cache.loaded && s.floor <= s.lock.version < |s.history|)
    && (forall id :: id in s.calls ==> CallInv(s, s.calls[id]))
    && (forall i :: 0 <= i < |s.answers| ==> Exact(s.history, s.answers[i]))
    && LoadBudget(s)
  }

  /** Database history only grows, so a finished call stays exact. */
  lemma ExactStays<R>(history: seq<seq<R>>, rows: seq<R>, a: Answer<R>)
    requires Exact(history, a)
    ensures Exact(history + [rows], a)
  {
  }

  lemma StepKeepsInv<R>(s: State<R>, e: Event<R>)
    requires Inv(s) && Enabled(s, e)
    ensures Inv(Next(s, e))
  {
    var s' := Next(s, e);
    forall i | 0 <= i < |s'.answers| ensures Exact(s'.history, s'.answers[i]) {
      if i < |s.answers| && e.DbWrite? { ExactStays(s.history, e.rows, s.answers[i]); }
    }
    forall id | id in s'.calls ensures CallInv(s', s'.calls[id]) {
      if id in s.calls { assert CallInv(s, s.calls[id]); }
    }
  }

  // ---------- Runs ----------

  ghost predicate CanRun<R>(s: State<R>, es: seq<Event<R>>)
    decreases |es|
  {
    es == [] || (Enabled(s, es[0]) && CanRun(Next(s, es[0]), es[1..]))
  }

  ghost function Run<R>(s: State<R>, es: seq<Event<R>>): State<R>
    requires CanRun(s, es)
    decreases |es|
  {
    if es == [] then s else Run(Next(s, es[0]), es[1..])
  }

  lemma {:induction false} RunKeepsInv<R>(s: State<R>, es: seq<Event<R>>)
    requires Inv(s) && CanRun(s, es)
    ensures Inv(Run(s, es))
    decreases |es|
  {
    if es != [] {
      StepKeepsInv(s, es[0]);
      RunKeepsInv(Next(s, es[0]), es[1..]);
    }
  }

  /** Every answer of every interleaving is exact in the sense above. */
  lemma EveryAnswerIsExact<R>(db: seq<R>, es: seq<Event<R>>, i: nat)
    requires CanRun(Start(db), es)
    requires i < |Run(Start(db), es).answers|
    ensures Exact(Run(Start(db), es).history, Run(Start(db), es).answers[i])
  {
    RunKeepsInv(Start(db), es);
  }

  /** Some database version of the call's window holds exactly these rows. */
  ghost predicate WasInDatabase<R>(history: seq<seq<R>>, a: Answer<R>, rows: seq<R>)
  {
    exists v :: a.floor <= v <= a.ceiling && v < |history| && history[v] == rows
  }

  /** An answer is right exactly when the cache was loaded or the database was once empty. */
  lemma AnswerIsRightExactlyWhenHit<R>(db: seq<R>, es: seq<Event<R>>, i: nat)
    requires CanRun(Start(db), es)
    requires i < |Run(Start(db), es).answers|
    ensures var s := Run(Start(db), es);
            var a := s.answers[i];
            WasInDatabase(s.history, a, a.rows) <==> a.hit || WasInDatabase(s.history, a, [])
  {
    EveryAnswerIsExact(db, es, i);
    var s := Run(Start(db), es);
    var a := s.answers[i];
    if a.hit { assert s.history[a.version] == a.rows; }
  }

  /** A call that no `Invalidate` overlaps answers with one recent database version. */
  lemma UndisturbedCallReadsDatabase<R>(db: seq<R>, es: seq<Event<R>>, i: nat)
    requires CanRun(Start(db), es)
    requires i < |Run(Start(db), es).answers|
    requires var a := Run(Start(db), es).answers[i]; a.since == a.until
    ensures var s := Run(Start(db), es);
            var a := s.answers[i];
            && a.floor <= a.version <= a.ceiling < |s.history|
            && a.rows == s.history[a.version]
  {
    EveryAnswerIsExact(db, es, i);
  }

  /** From answer `n` on, call `id` has only been answered with `k` as its floor or later. */
  ghost predicate AnsweredFrom<R>(s: State<R>, id: nat, k: nat, n: nat)
  {
    && k <= s.floor && n <= |s.answers|
    && (id in s.calls ==> k <= s.calls[id].floor)
    && (forall i :: n <= i < |s.answers| && s.answers[i].id == id ==> k <= s.answers[i].floor)
  }

  lemma {:induction false} RunKeepsAnsweredFrom<R>(s: State<R>, es: seq<Event<R>>, id: nat, k: nat, n: nat)
    requires Inv(s) && CanRun(s, es) && AnsweredFrom(s, id, k, n)
    ensures AnsweredFrom(Run(s, es), id, k, n)
    decreases |es|
  {
    if es != [] {
      StepKeepsInv(s, es[0]);
      RunKeepsAnsweredFrom(Next(s, es[0]), es[1..], id, k, n);
    }
  }

  /** History only grows, and only by writes. */
  lemma {:induction false} RunExtendsHistory<R>(s: State<R>, es: seq<Event<R>>)
    requires CanRun(s, es)
    ensures s.history <= Run(s, es).history
    ensures (forall e :: e in es ==> !e.DbWrite?) ==> Run(s, es).history == s.history
    decreases |es|
  {
    if es != [] {
      RunExtendsHistory(Next(s, es[0]), es[1..]);
      assert forall e :: e in es[1..] ==> e in es;
    }
  }

  /**
   Read your writes. `s` is any reachable state, with whatever loads and calls are under way,
   and `Invalidate` happens in it. A call not running then answers with a version no older
   than the last write before that `Invalidate`, which is that write's rows for as long as
   nobody writes again; or with no rows if a further `Invalidate` disturbed it.
   */
  lemma WriteThenInvalidateIsSeen<R>(s: State<R>, es: seq<Event<R>>, id: nat, i: nat)
    requires Inv(s) && Enabled(s, Invalidate) && CanRun(Next(s, Invalidate), es) && id !in s.calls
    requires |s.answers| <= i < |Run(Next(s, Invalidate), es).answers|
    requires Run(Next(s, Invalidate), es).answers[i].id == id
    ensures var s' := Run(Next(s, Invalidate), es);
            var a, written := s'.answers[i], |s.history| - 1;
            && s.history <= s'.history
            && (a.hit ==> written <= a.version < |s'.history| && a.rows == s'.history[a.version])
            && (a.hit && (forall e :: e in es ==> !e.DbWrite?) ==> a.rows == s.history[written])
            && (!a.hit ==> a.rows == [] && a.since < a.until)
  {
    var s0 := Next(s, Invalidate);
    StepKeepsInv(s, Invalidate);
    RunKeepsAnsweredFrom(s0, es, id, |s.history| - 1, |s.answers|);
    RunExtendsHistory(s0, es);
    RunKeepsInv(s0, es);
    assert Exact(Run(s0, es).history, Run(s0, es).answers[i]);
  }

  /**
   A call that runs alone does what the methods do: it answers from a loaded cache at once,
   and otherwise loads the database's rows and answers with them.
   */
  lemma LoneCallIsTheMethod<R>(s: State<R>, id: nat)
    requires Inv(s) && s.lock.Free? && id !in s.calls
    ensures var rows := Load(s.cache, Some(s.history[|s.history| - 1])).rows;
            var s1 := Next(s, Begin(id));
            Enabled(s1, Check(id)) &&
            var s2 := Next(s1, Check(id));
            if s.cache.loaded then s2.cache == s.cache && Answered(s, s2, rows)
            else
              Enabled(s2, Query(id)) &&
              var s3 := Next(s2, Query(id));
              Enabled(s3, Publish(id)) &&
              var s4 := Next(s3, Publish(id));
              Enabled(s4, Read(id)) &&
              var s5 := Next(s4, Read(id));
              s5.cache == Load(s.cache, Some(s.history[|s.history| - 1])) && Answered(s, s5, rows)
  {
  }

  /** One more call has finished, and read these rows. */
  ghost predicate Answered<R>(s: State<R>, s': State<R>, rows: seq<R>)
  {
    |s'.answers| == |s.answers| + 1 && s'.answers[|s.answers|].rows == rows && s'.answers[|s.answers|].hit
  }

  /** The database is queried successfully at most once more than it is invalidated. */
  lemma LoadsAreBounded<R>(db: seq<R>, es: seq<Event<R>>)
    requires CanRun(Start(db), es)
    ensures Run(Start(db), es).loads <= Run(Start(db), es).invalidations + 1
  {
    RunKeepsInv(Start(db), es);
  }

  /**
   Why an undisturbed call is asked for: an `Invalidate` between the load and the second
   read makes the call answer with no rows, although the database always held one.
   */
  lemma DisturbedCallCanReadNothing<R>(row: R)
    ensures var es := [Begin(0), Check(0), Query(0), Publish(0), Invalidate, Read(0)];
            && CanRun(Start([row]), es)
            && var s := Run(Start([row]), es);
               s.history == [[row]] && |s.answers| == 1 && s.answers[0].rows == []
  {
    var first: seq<Event<R>> := [Begin(0), Check(0), Query(0)];
    var last: seq<Event<R>> := [Publish(0), Invalidate, Read(0)];
    InvalidatedBeforeRead(row);
    RunOfThree(Start([row]), Begin(0), Check(0), Query(0), last);
    assert first + last == [Begin(0), Check(0), Query(0), Publish(0), Invalidate, Read(0)];
  }

  /** Call 0 holds the lock with its query answered. */
  function Queried<R>(row: R): State<R>
  {
    State([[row]], Cleared(), 0, Loading(0, 0), map[0 := Call(Waiting, 0, 0)], 0, 0, 1, [])
  }

  lemma InvalidatedBeforeRead<R>(row: R)
    ensures CanRun(Queried(row), [Publish(0), Invalidate, Read(0)])
    ensures var s := Run(Queried(row), [Publish(0), Invalidate, Read(0)]);
            s.history == [[row]] && |s.answers| == 1 && s.answers[0].rows == []
  {
    var last: seq<Event<R>> := [Publish(0), Invalidate, Read(0)];
    RunOfThree(Queried(row), Publish(0), Invalidate, Read(0), []);
    assert last + [] == last;
  }

  /** Unfolds a run by three events. */
  lemma RunOfThree<R>(s: State<R>, a: Event<R>, b: Event<R>, c: Event<R>, es: seq<Event<R>>)
    requires Enabled(s, a) && Enabled(Next(s, a), b) && Enabled(Next(Next(s, a), b), c)
    requires CanRun(Next(Next(Next(s, a), b), c), es)
    ensures CanRun(s, [a, b, c] + es) && Run(s, [a, b, c] + es) == Run(Next(Next(Next(s, a), b), c), es)
  {
    RunStep(Next(Next(s, a), b), c, es);
    RunStep(Next(s, a), b, [c] + es);
    RunStep(s, a, [b] + ([c] + es));
    assert [a] + ([b] + ([c] + es)) == [a, b, c] + es;
  }

  /** Unfolds a run by one event. */
  lemma RunStep<R>(s: State<R>, e: Event<R>, es: seq<Event<R>>)
    requires Enabled(s, e) && CanRun(Next(s, e), es)
    ensures CanRun(s, [e] + es) && Run(s, [e] + es) == Run(Next(s, e), es)
  {
    assert ([e] + es)[1..] == es;
  }
}
