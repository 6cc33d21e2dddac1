/**
 `TranslationCache` of `internal/cache/translations.go`: translation links per entity type,
 bounded by an eviction loop whose limit shrinks as it deletes.
 */
module TranslationCaching {
  import opened Common
  import opened MapSums

  /** A member of a translation component, as the query lists it. */
  datatype Member = Member(languageCode: string, entityID: int)

  /** Language code to translation id. */
  type Translations = map<string, int>

  type ByType = map<int, Translations>

  type Entries = map<string, ByType>

  /** What the component query answers; `None` is its error. */
  type Query = (string, int) -> Option<seq<Member>>

  // ---------- Links ----------

  /** Writes the members over `m`, in order. */
  function AddMembers(m: Translations, members: seq<Member>): Translations
  {
    if members == [] then m else
      var last := members[|members| - 1];
      AddMembers(m, members[..|members| - 1])[last.languageCode := last.entityID]
  }

  function MapOf(members: seq<Member>): Translations
  {
    AddMembers(map[], members)
  }

  /** Entity `n` is the last member listed for the language. */
  ghost predicate LastIs(members: seq<Member>, languageCode: string, n: int)
  {
    exists i :: 0 <= i < |members| && members[i] == Member(languageCode, n)
                && forall j :: i < j < |members| ==> members[j].languageCode != languageCode
  }

  /** `m` links exactly the languages listed, each to its last member. */
  ghost predicate LinksMembers(m: Translations, members: seq<Member>)
  {
    forall lang, n :: LastIs(members, lang, n) <==> lang in m && m[lang] == n
  }

  lemma LastIsStep(members: seq<Member>, languageCode: string, n: int)
    requires members != []
    ensures var last := members[|members| - 1];
            LastIs(members, languageCode, n) <==>
              if last.languageCode == languageCode then last.entityID == n
              else LastIs(members[..|members| - 1], languageCode, n)
  {
    var k := |members| - 1;
    var last, before := members[k], members[..k];
    assert forall i :: 0 <= i < k ==> before[i] == members[i];
    if LastIs(members, languageCode, n) {
      var i :| 0 <= i < |members| && members[i] == Member(languageCode, n)
               && forall j :: i < j < |members| ==> members[j].languageCode != languageCode;
      if last.languageCode != languageCode { assert before[i] == Member(languageCode, n); }
    }
    if last == Member(languageCode, n) { assert members[k] == Member(languageCode, n); }
    if last.languageCode != languageCode && LastIs(before, languageCode, n) {
      var i :| 0 <= i < k && before[i] == Member(languageCode, n)
               && forall j :: i < j < k ==> before[j].languageCode != languageCode;
      assert members[i] == Member(languageCode, n);
    }
  }

  lemma {:induction false} MapOfLinks(members: seq<Member>, languageCode: string, n: int)
    ensures LastIs(members, languageCode, n)
            <==> languageCode in MapOf(members) && MapOf(members)[languageCode] == n
  {
    if members != [] {
      LastIsStep(members, languageCode, n);
      MapOfLinks(members[..|members| - 1], languageCode, n);
    }
  }

  /** The map built from the query's answer links exactly its members. */
  lemma MapOfLinksMembers(members: seq<Member>)
    ensures LinksMembers(MapOf(members), members)
  {
    forall lang, n ensures LastIs(members, lang, n) <==> lang in MapOf(members) && MapOf(members)[lang] == n {
      MapOfLinks(members, lang, n);
    }
  }

  /** With one member per language, that is each listed member and no other. */
  lemma DistinctMembersAreLinked(m: Translations, members: seq<Member>, languageCode: string, n: int)
    requires LinksMembers(m, members)
    requires forall i, j :: 0 <= i < j < |members| ==> members[i].languageCode != members[j].languageCode
    ensures Member(languageCode, n) in members <==> languageCode in m && m[languageCode] == n
  {
    if Member(languageCode, n) in members {
      var i :| 0 <= i < |members| && members[i] == Member(languageCode, n);
      assert LastIs(members, languageCode, n);
    }
    assert LastIs(members, languageCode, n) ==> Member(languageCode, n) in members;
  }

  lemma {:induction false} AddMembersIsUnion(m: Translations, members: seq<Member>)
    ensures AddMembers(m, members) == m + MapOf(members)
  {
    if members != [] {
      AddMembersIsUnion(m, members[..|members| - 1]);
    }
  }

  /** Loading an id twice in one batch gives the map of loading it once. */
  lemma AddMembersTwice(members: seq<Member>)
    ensures AddMembers(MapOf(members), members) == MapOf(members)
  {
    AddMembersIsUnion(MapOf(members), members);
  }

  // ---------- Counting entries ----------

  function Count(byType: ByType): nat
  {
    |byType|
  }

  ghost function Total(c: Entries): nat
  {
    SumOf(c, Count)
  }

  /** How many entries eviction leaves of a type that holds `n`. */
  function Kept(n: nat): nat
  {
    if n == 0 then 0 else n - (n / 3 + 1)
  }

  ghost predicate SubMap<K, V>(small: map<K, V>, big: map<K, V>)
  {
    forall k :: k in small ==> k in big && small[k] == big[k]
  }

  ghost predicate EvictedAt(before: Entries, after: Entries, t: string)
  {
    && (t in after <==> t in before && Kept(|before[t]|) > 0)
    && (t in after ==> SubMap(after[t], before[t]) && |after[t]| == Kept(|before[t]|))
  }

  /** Eviction in some map order: each type loses a third and one more, and empty types go. */
  ghost predicate Evicted(before: Entries, after: Entries)
  {
    forall t :: EvictedAt(before, after, t)
  }

  /** Eviction under way: the types in `remaining` are as they were. */
  ghost predicate PartlyEvicted(before: Entries, now: Entries, remaining: set<string>)
  {
    && (forall t :: t in remaining ==> t in before && t in now && now[t] == before[t])
    && (forall t :: t !in remaining ==> EvictedAt(before, now, t))
  }

  /** What the outer eviction loop makes of a type of which `left` is left. */
  function Shrunk(now: Entries, t: string, left: ByType): Entries
  {
    var next := now[t := left];
    if |left| == 0 then next - {t} else next
  }

  lemma ShrunkElsewhere(before: Entries, now: Entries, t: string, left: ByType, u: string)
    requires u != t
    ensures u in Shrunk(now, t, left) <==> u in now
    ensures u in now ==> Shrunk(now, t, left)[u] == now[u]
    ensures EvictedAt(before, Shrunk(now, t, left), u) <==> EvictedAt(before, now, u)
  {
  }

  lemma ShrunkHere(before: Entries, now: Entries, t: string, left: ByType)
    requires t in before && SubMap(left, before[t]) && |left| == Kept(|before[t]|)
    ensures EvictedAt(before, Shrunk(now, t, left), t)
  {
  }

  lemma EvictOneType(before: Entries, now: Entries, remaining: set<string>, t: string, left: ByType)
    requires PartlyEvicted(before, now, remaining) && t in remaining
    requires SubMap(left, before[t]) && |left| == Kept(|before[t]|)
    ensures PartlyEvicted(before, Shrunk(now, t, left), remaining - {t})
  {
    ShrunkHere(before, now, t, left);
    forall u | u in remaining - {t}
      ensures u in before && u in Shrunk(now, t, left) && Shrunk(now, t, left)[u] == before[u]
    {
      ShrunkElsewhere(before, now, t, left, u);
    }
    forall u | u !in remaining - {t} ensures EvictedAt(before, Shrunk(now, t, left), u) {
      if u != t { ShrunkElsewhere(before, now, t, left, u); }
    }
  }

  /** `ensureCapacity`. */
  ghost predicate Ensured(before: Entries, after: Entries, maxEntries: int)
  {
    if Total(before) >= maxEntries then Evicted(before, after) else after == before
  }

  function Of(c: Entries, entityType: string): ByType
  {
    if entityType in c then c[entityType] else map[]
  }

  function Put(c: Entries, entityType: string, loaded: ByType): Entries
  {
    c[entityType := Of(c, entityType) + loaded]
  }

  // ---------- The capacity bound ----------

  lemma EvictedWithout(before: Entries, after: Entries, t: string)
    requires Evicted(before, after)
    ensures Evicted(before - {t}, after - {t})
  {
    forall u ensures EvictedAt(before - {t}, after - {t}, u) {
      assert EvictedAt(before, after, u);
    }
  }

  /**
   The half that `ensureCapacity` means to clear: a type loses it exactly when it holds at
   most four entries, or six. Of five, three are left.
   */
  lemma HalfIsClearedExactlyWhenFew(before: Entries, after: Entries, t: string)
    requires Evicted(before, after)
    ensures 2 * |Of(after, t)| <= |Of(before, t)| <==> |Of(before, t)| <= 4 || |Of(before, t)| == 6
    ensures |Of(before, t)| == 5 ==> |Of(after, t)| == 3
  {
    assert EvictedAt(before, after, t);
  }

  lemma KeptIsTwoThirds(n: nat)
    ensures 0 <= 3 * Kept(n) <= 2 * n
  {
  }

  /** What a type contributes after eviction. */
  lemma EvictedTakesOut(before: Entries, after: Entries, t: string)
    requires Evicted(before, after) && t in before
    ensures Total(after) == Kept(|before[t]|) + Total(after - {t})
  {
    assert EvictedAt(before, after, t);
    if t in after {
      SumTakesOut(after, Count, t);
    } else {
      assert after - {t} == after;
    }
  }

  lemma {:induction false} EvictionShrinks(before: Entries, after: Entries)
    requires Evicted(before, after)
    ensures 3 * Total(after) <= 2 * Total(before)
    decreases |before|
  {
    if before == map[] {
      assert after == map[] by { assert forall t :: t in after ==> !EvictedAt(before, after, t); }
    } else {
      var t :| t in before;
      SumTakesOut(before, Count, t);
      EvictedTakesOut(before, after, t);
      KeptIsTwoThirds(|before[t]|);
      EvictedWithout(before, after, t);
      EvictionShrinks(before - {t}, after - {t});
    }
  }

  lemma UnionCount(a: ByType, b: ByType)
    ensures |a + b| <= |a| + |b|
  {
    assert (a + b).Keys == a.Keys + b.Keys;
    assert |a.Keys + b.Keys| <= |a.Keys| + |b.Keys|;
  }

  lemma PutGrows(c: Entries, entityType: string, loaded: ByType)
    ensures Total(Put(c, entityType, loaded)) <= Total(c) + |loaded|
  {
    UnionCount(Of(c, entityType), loaded);
    SumUpdates(c, Count, entityType, Of(c, entityType) + loaded);
  }

  /** The most entries a cache can reach when no load brings more than `batch`. */
  function Bound(maxEntries: int, batch: nat): int
  {
    if maxEntries - 1 + batch > 3 * batch then maxEntries - 1 + batch else 3 * batch
  }

  lemma LoadKeepsBound(c: Entries, e: Entries, entityType: string, loaded: ByType, maxEntries: int, batch: nat)
    requires Ensured(c, e, maxEntries) && |loaded| <= batch && Total(c) <= Bound(maxEntries, batch)
    ensures Total(Put(e, entityType, loaded)) <= Bound(maxEntries, batch)
  {
    PutGrows(e, entityType, loaded);
    if Total(c) >= maxEntries {
      EvictionShrinks(c, e);
    }
  }

  // ---------- Runs ----------

  /** `Relink` is a link write followed by `InvalidateType`. */
  datatype Op =
    | Load(entityType: string, ids: set<int>)
    | Relink(entityType: string)
    | DropEntity(entityType: string, entityID: int)
    | DropAll

  /** The cache, and what the component query currently answers for each entity. */
  datatype State = State(entries: Entries, links: (string, int) -> seq<Member>)

  ghost function Loaded(s: State, entityType: string, ids: set<int>): ByType
  {
    map id | id in ids :: MapOf(s.links(entityType, id))
  }

  ghost predicate Step(s: State, s': State, op: Op, maxEntries: int)
  {
    match op
    case Load(t, ids) =>
      && s'.links == s.links
      && exists e :: Ensured(s.entries, e, maxEntries) && s'.entries == Put(e, t, Loaded(s, t, ids))
    case Relink(t) =>
      && s'.entries == s.entries - {t}
      && forall other, id :: other != t ==> s'.links(other, id) == s.links(other, id)
    case DropEntity(t, id) =>
      && s'.links == s.links
      && s'.entries == if t in s.entries then s.entries[t := s.entries[t] - {id}] else s.entries
    case DropAll => s'.links == s.links && s'.entries == map[]
  }

  ghost predicate IsRun(states: seq<State>, ops: seq<Op>, maxEntries: int)
  {
    && |states| == |ops| + 1
    && states[0].entries == map[]
    && forall i :: 0 <= i < |ops| ==> Step(states[i], states[i + 1], ops[i], maxEntries)
  }

  ghost predicate CoherentType(byType: ByType, entityType: string, links: (string, int) -> seq<Member>)
  {
    forall id :: id in byType ==> byType[id] == MapOf(links(entityType, id))
  }

  /** Every cached map is what the query answers for that entity. */
  ghost predicate Coherent(c: Entries, links: (string, int) -> seq<Member>)
  {
    forall t :: t in c ==> CoherentType(c[t], t, links)
  }

  lemma EnsuredKeepsCoherent(c: Entries, e: Entries, links: (string, int) -> seq<Member>, maxEntries: int)
    requires Coherent(c, links) && Ensured(c, e, maxEntries)
    ensures Coherent(e, links)
  {
    if Total(c) >= maxEntries {
      forall t | t in e ensures CoherentType(e[t], t, links) {
        assert EvictedAt(c, e, t) && CoherentType(c[t], t, links);
      }
    }
  }

  lemma LoadKeepsCoherent(s: State, e: Entries, entityType: string, ids: set<int>, maxEntries: int)
    requires Coherent(s.entries, s.links) && Ensured(s.entries, e, maxEntries)
    ensures Coherent(Put(e, entityType, Loaded(s, entityType, ids)), s.links)
  {
    EnsuredKeepsCoherent(s.entries, e, s.links, maxEntries);
    assert CoherentType(Of(e, entityType), entityType, s.links);
    assert CoherentType(Loaded(s, entityType, ids), entityType, s.links);
  }

  /** What is loaded is cached, and as long as the cache is below its limit nothing else is lost. */
  lemma LoadCaches(s: State, s': State, entityType: string, ids: set<int>, maxEntries: int)
    requires Step(s, s', Load(entityType, ids), maxEntries)
    ensures forall id :: id in ids ==>
              id in Of(s'.entries, entityType)
              && LinksMembers(Of(s'.entries, entityType)[id], s.links(entityType, id))
    ensures Total(s.entries) < maxEntries ==>
              forall t, id :: id in Of(s.entries, t) && (t != entityType || id !in ids) ==>
                id in Of(s'.entries, t) && Of(s'.entries, t)[id] == Of(s.entries, t)[id]
  {
    forall id | id in ids ensures LinksMembers(Loaded(s, entityType, ids)[id], s.links(entityType, id)) {
      MapOfLinksMembers(s.links(entityType, id));
    }
    var loaded := Loaded(s, entityType, ids);
    var e :| Ensured(s.entries, e, maxEntries) && s'.entries == Put(e, entityType, loaded);
    forall t, id | Total(s.entries) < maxEntries && id in Of(s.entries, t) && (t != entityType || id !in ids)
      ensures id in Of(s'.entries, t) && Of(s'.entries, t)[id] == Of(s.entries, t)[id]
    {
      assert e == s.entries;
      if t == entityType { assert Of(s'.entries, t) == Of(e, t) + loaded; }
    }
  }

  lemma RelinkKeepsCoherent(s: State, s': State, entityType: string)
    requires Coherent(s.entries, s.links) && s'.entries == s.entries - {entityType}
    requires forall other, id :: other != entityType ==> s'.links(other, id) == s.links(other, id)
    ensures Coherent(s'.entries, s'.links)
  {
    forall other | other in s'.entries ensures CoherentType(s'.entries[other], other, s'.links) {
      assert CoherentType(s.entries[other], other, s.links);
    }
  }

  lemma DropEntityKeepsCoherent(c: Entries, links: (string, int) -> seq<Member>, entityType: string, id: int)
    requires Coherent(c, links) && entityType in c
    ensures Coherent(c[entityType := c[entityType] - {id}], links)
  {
    assert CoherentType(c[entityType], entityType, links);
  }

  lemma StepKeepsCoherent(s: State, s': State, op: Op, maxEntries: int)
    requires Coherent(s.entries, s.links) && Step(s, s', op, maxEntries)
    ensures Coherent(s'.entries, s'.links)
  {
    match op
    case Load(t, ids) =>
      var e :| Ensured(s.entries, e, maxEntries) && s'.entries == Put(e, t, Loaded(s, t, ids));
      LoadKeepsCoherent(s, e, t, ids, maxEntries);
    case Relink(t) => RelinkKeepsCoherent(s, s', t);
    case DropEntity(t, id) => if t in s.entries { DropEntityKeepsCoherent(s.entries, s.links, t, id); }
    case DropAll =>
  }

  lemma StepKeepsBound(s: State, s': State, op: Op, maxEntries: int, batch: nat)
    requires Total(s.entries) <= Bound(maxEntries, batch) && Step(s, s', op, maxEntries)
    requires op.Load? ==> |op.ids| <= batch
    ensures Total(s'.entries) <= Bound(maxEntries, batch)
  {
    match op
    case Load(t, ids) =>
      var loaded := Loaded(s, t, ids);
      var e :| Ensured(s.entries, e, maxEntries) && s'.entries == Put(e, t, loaded);
      assert loaded.Keys == ids;
      LoadKeepsBound(s.entries, e, t, loaded, maxEntries, batch);
    case Relink(t) =>
      if t in s.entries { SumTakesOut(s.entries, Count, t); } else { assert s.entries - {t} == s.entries; }
    case DropEntity(t, id) =>
      if t in s.entries {
        SumUpdates(s.entries, Count, t, s.entries[t] - {id});
        assert (s.entries[t] - {id}).Keys == s.entries[t].Keys - {id};
      }
    case DropAll =>
  }

  lemma RunTakesStep(states: seq<State>, ops: seq<Op>, maxEntries: int, i: nat)
    requires IsRun(states, ops, maxEntries) && 0 < i < |states|
    ensures Step(states[i - 1], states[i], ops[i - 1], maxEntries)
  {
    assert states[i] == states[i - 1 + 1];
  }

  /** No run of loads of at most `batch` distinct ids exceeds the bound, in any map order. */
  lemma {:induction false} RunStaysInBound(states: seq<State>, ops: seq<Op>, maxEntries: int, batch: nat, i: nat)
    requires IsRun(states, ops, maxEntries) && i < |states|
    requires forall k :: 0 <= k < |ops| && ops[k].Load? ==> |ops[k].ids| <= batch
    ensures Total(states[i].entries) <= Bound(maxEntries, batch)
  {
    if i > 0 {
      RunStaysInBound(states, ops, maxEntries, batch, i - 1);
      RunTakesStep(states, ops, maxEntries, i);
      StepKeepsBound(states[i - 1], states[i], ops[i - 1], maxEntries, batch);
    }
  }

  lemma {:induction false} RunStaysCoherent(states: seq<State>, ops: seq<Op>, maxEntries: int, i: nat)
    requires IsRun(states, ops, maxEntries) && i < |states|
    ensures Coherent(states[i].entries, states[i].links)
  {
    if i > 0 {
      RunStaysCoherent(states, ops, maxEntries, i - 1);
      RunTakesStep(states, ops, maxEntries, i);
      StepKeepsCoherent(states[i - 1], states[i], ops[i - 1], maxEntries);
    }
  }

  // ---------- Lookups ----------

  /** The cached map, or what the query answers; `None` is a failed query. */
  function Answer(c: Entries, entityType: string, id: int, query: Query): Option<Translations>
  {
    if id in Of(c, entityType) then Some(c[entityType][id])
    else
      match query(entityType, id)
      case None => None
      case Some(members) => Some(MapOf(members))
  }

  /** The query answers with the stored links, when it answers. */
  ghost predicate Reads(query: Query, links: (string, int) -> seq<Member>)
  {
    forall t, id :: query(t, id).Some? ==> query(t, id).value == links(t, id)
  }

  /** In every state of every run an answer links exactly the members that are stored for the entity. */
  lemma AnswersAreTheLinks(states: seq<State>, ops: seq<Op>, maxEntries: int, i: nat,
                           entityType: string, id: int, query: Query)
    requires IsRun(states, ops, maxEntries) && i < |states| && Reads(query, states[i].links)
    ensures var a := Answer(states[i].entries, entityType, id, query);
            && (a.Some? ==> LinksMembers(a.value, states[i].links(entityType, id)))
            && (a.None? ==> query(entityType, id).None?)
  {
    RunStaysCoherent(states, ops, maxEntries, i);
    var c := states[i].entries;
    assert entityType in c ==> CoherentType(c[entityType], entityType, states[i].links);
    MapOfLinksMembers(states[i].links(entityType, id));
  }

  // ---------- Lookups as steps ----------

  /** `loaded` holds what the query answers for exactly these ids. */
  ghost predicate IsQueried(loaded: ByType, entityType: string, ids: set<int>, query: Query)
  {
    loaded.Keys == ids && forall id :: id in ids ==> Some(loaded[id]) == Answer(map[], entityType, id, query)
  }

  /** `kept` is what eviction left before `loaded` was stored. */
  ghost predicate LoadedInto(before: Entries, kept: Entries, after: Entries, entityType: string, loaded: ByType,
                             maxEntries: int)
  {
    Ensured(before, kept, maxEntries) && after == Put(kept, entityType, loaded)
  }

  /** A lookup loads the ids that are not cached, after eviction, and nothing if all are. */
  ghost predicate Fetched(before: Entries, after: Entries, entityType: string, ids: set<int>, query: Query,
                          maxEntries: int)
  {
    var missing := ids - Of(before, entityType).Keys;
    if missing == {} then after == before
    else exists kept, loaded :: IsQueried(loaded, entityType, missing, query)
                                && LoadedInto(before, kept, after, entityType, loaded, maxEntries)
  }

  lemma QueriedIsLoaded(s: State, entityType: string, ids: set<int>, query: Query, loaded: ByType)
    requires Reads(query, s.links) && IsQueried(loaded, entityType, ids, query)
    ensures loaded == Loaded(s, entityType, ids)
  {
    forall id | id in ids ensures loaded[id] == MapOf(s.links(entityType, id)) {
      assert Some(loaded[id]) == Answer(map[], entityType, id, query);
    }
  }

  lemma MissingAreFew(ids: set<int>, cached: set<int>)
    ensures |ids - cached| <= |ids|
  {
    assert ids == (ids - cached) + (ids * cached);
  }

  /** So `Get` and `GetBatch` make at most one step of a run, loading no more ids than they were given. */
  lemma FetchIsStep(s: State, after: Entries, entityType: string, ids: set<int>, query: Query, maxEntries: int)
    requires Reads(query, s.links) && Fetched(s.entries, after, entityType, ids, query, maxEntries)
    ensures var missing := ids - Of(s.entries, entityType).Keys;
            && |missing| <= |ids|
            && (missing == {} ==> after == s.entries)
            && (missing != {} ==> Step(s, State(after, s.links), Load(entityType, missing), maxEntries))
  {
    var missing := ids - Of(s.entries, entityType).Keys;
    MissingAreFew(ids, Of(s.entries, entityType).Keys);
    if missing != {} {
      var kept, loaded :| IsQueried(loaded, entityType, missing, query)
                          && LoadedInto(s.entries, kept, after, entityType, loaded, maxEntries);
      QueriedIsLoaded(s, entityType, missing, query, loaded);
    }
  }

  // ---------- The object ----------

  class TranslationCache {
    var translations: Entries
    const maxEntries: int

    constructor (maxEntries: int)
      ensures translations == map[] && this.maxEntries == maxEntries
    {
      translations := map[];
      this.maxEntries := maxEntries;
    }

    /** The inner eviction loop; ids come in arbitrary order. */
    method EvictSome(byType: ByType) returns (left: ByType)
      ensures SubMap(left, byType) && |left| == Kept(|byType|)
    {
      var count := 0;
      left := byType;
      while left != map[]
        invariant SubMap(left, byType)
        invariant 0 <= count && |left| == |byType| - count
        invariant count > 0 ==> 3 * (count - 1) <= |byType|
        decreases |left|
      {
        var id := AnyKey(left);
        if count > |left| / 2 {
          break;
        }
        assert (left - {id}).Keys == left.Keys - {id};
        left := left - {id};
        count := count + 1;
      }
    }

    method CountEntries() returns (total: int)
      ensures total == Total(translations)
    {
      total := 0;
      var remaining := translations;
      while remaining != map[]
        invariant SubMap(remaining, translations)
        invariant total + Total(remaining) == Total(translations)
        decreases |remaining|
      {
        var t := AnyKey(remaining);
        SumTakesOut(remaining, Count, t);
        total := total + |translations[t]|;
        remaining := remaining - {t};
      }
    }

    method EnsureCapacity()
      modifies this
      ensures Ensured(old(translations), translations, maxEntries)
    {
      var total := CountEntries();
      if total >= maxEntries {
        ghost var before := translations;
        var remaining := translations.Keys;
        while remaining != {}
          invariant PartlyEvicted(before, translations, remaining)
          decreases |remaining|
        {
          var entityType := AnyOf(remaining);
          var left := EvictSome(translations[entityType]);
          EvictOneType(before, translations, remaining, entityType, left);
          translations := translations[entityType := left];
          if |left| == 0 {
            translations := translations - {entityType};
          }
          remaining := remaining - {entityType};
        }
      }
    }

    method Fill(m: Translations, members: seq<Member>) returns (filled: Translations)
      ensures filled == AddMembers(m, members)
    {
      filled := m;
      for i := 0 to |members|
        invariant filled == AddMembers(m, members[..i])
      {
        assert members[..i + 1][..i] == members[..i];
        filled := filled[members[i].languageCode := members[i].entityID];
      }
      assert members[..|members|] == members;
    }

    /** `kept` is what `EnsureCapacity` left. */
    method LoadEntity(entityType: string, entityID: int, query: Query)
      returns (r: Option<Translations>, ghost kept: Entries)
      modifies this
      ensures r == match query(entityType, entityID) case None => None case Some(ms) => Some(MapOf(ms))
      ensures r.Some? ==> LinksMembers(r.value, query(entityType, entityID).value)
      ensures r.None? ==> translations == old(translations)
      ensures r.Some? ==> Ensured(old(translations), kept, maxEntries)
                          && translations == Put(kept, entityType, map[entityID := r.value])
    {
      var members := query(entityType, entityID);
      if members.None? {
        return None, translations;
      }
      var tmap := Fill(map[], members.value);
      MapOfLinksMembers(members.value);
      EnsureCapacity();
      kept := translations;
      var byType := Of(translations, entityType);
      translations := translations[entityType := byType[entityID := tmap]];
      assert byType[entityID := tmap] == byType + map[entityID := tmap];
      r := Some(tmap);
    }

    /** The query loop of `loadBatch`; an id may be listed more than once. */
    method QueryAll(entityType: string, ids: seq<int>, query: Query) returns (result: Option<ByType>)
      ensures result.None? <==> exists id :: id in ids && query(entityType, id).None?
      ensures result.Some? ==> result.value.Keys == (set id | id in ids)
      ensures result.Some? ==> forall id :: id in ids ==> Some(result.value[id]) == Answer(map[], entityType, id, query)
    {
      var maps: ByType := map id | id in ids :: map[];
      for i := 0 to |ids|
        invariant maps.Keys == (set id | id in ids)
        invariant forall k :: 0 <= k < i ==> query(entityType, ids[k]).Some?
        invariant forall id :: id in ids ==>
                    maps[id] == if id in ids[..i] then MapOf(query(entityType, id).value) else map[]
      {
        var id := ids[i];
        var members := query(entityType, id);
        if members.None? {
          return None;
        }
        var filled := Fill(maps[id], members.value);
        AddMembersTwice(members.value);
        maps := maps[id := filled];
        assert ids[..i + 1] == ids[..i] + [id];
      }
      assert ids[..|ids|] == ids;
      return Some(maps);
    }

    method LoadBatch(entityType: string, ids: seq<int>, query: Query)
      returns (r: Option<ByType>, ghost kept: Entries)
      modifies this
      ensures r.None? <==> exists id :: id in ids && query(entityType, id).None?
      ensures r.None? ==> translations == old(translations)
      ensures r.Some? ==> r.value.Keys == set id | id in ids
      ensures r.Some? ==> forall id :: id in ids ==> Some(r.value[id]) == Answer(map[], entityType, id, query)
      ensures r.Some? ==> Ensured(old(translations), kept, maxEntries)
                          && translations == Put(kept, entityType, r.value)
    {
      r := QueryAll(entityType, ids, query);
      kept := translations;
      if r.Some? {
        EnsureCapacity();
        kept := translations;
        var byType := Merge(Of(translations, entityType), r.value);
        translations := translations[entityType := byType];
      }
    }

    method Get(entityType: string, entityID: int, query: Query) returns (r: Option<Translations>)
      modifies this
      ensures r == Answer(old(translations), entityType, entityID, query)
      ensures r.None? ==> translations == old(translations)
      ensures r.Some? ==> Fetched(old(translations), translations, entityType, {entityID}, query, maxEntries)
    {
      if entityType in translations && entityID in translations[entityType] {
        assert {entityID} - Of(translations, entityType).Keys == {};
        return Some(translations[entityType][entityID]);
      }
      assert {entityID} - Of(translations, entityType).Keys == {entityID};
      ghost var kept;
      r, kept := LoadEntity(entityType, entityID, query);
      if r.Some? {
        assert IsQueried(map[entityID := r.value], entityType, {entityID}, query);
        assert LoadedInto(old(translations), kept, translations, entityType, map[entityID := r.value], maxEntries);
      }
    }

    /** Repeats and partly cached lists included: the keys are the ids, each with the answer of `Get`. */
    method GetBatch(entityType: string, ids: seq<int>, query: Query) returns (r: Option<ByType>)
      modifies this
      ensures r.None? <==> exists id :: id in ids && Answer(old(translations), entityType, id, query).None?
      ensures r.Some? ==> r.value.Keys == set id | id in ids
      ensures r.Some? ==> forall id :: id in ids ==> Some(r.value[id]) == Answer(old(translations), entityType, id, query)
      ensures r.None? ==> translations == old(translations)
      ensures r.Some? ==> Fetched(old(translations), translations, entityType, (set id | id in ids), query, maxEntries)
    {
      var result, toLoad := SplitCached(Of(translations, entityType), ids);
      ghost var missing := (set id | id in ids) - Of(translations, entityType).Keys;
      assert forall id :: id in missing <==> id in toLoad;
      if |toLoad| > 0 {
        assert toLoad[0] in missing;
        var loaded, kept := LoadBatch(entityType, toLoad, query);
        if loaded.None? {
          return None;
        }
        assert IsQueried(loaded.value, entityType, missing, query);
        assert LoadedInto(old(translations), kept, translations, entityType, loaded.value, maxEntries);
        result := result + loaded.value;
      }
      assert forall id :: id in result <==> id in ids;
      return Some(result);
    }

    /** The first loop of `GetBatch`: what is cached, and which ids are left to load. */
    method SplitCached(byType: ByType, ids: seq<int>) returns (result: ByType, toLoad: seq<int>)
      ensures forall id :: id in result <==> id in ids && id in byType
      ensures forall id :: id in result ==> result[id] == byType[id]
      ensures forall id :: id in toLoad <==> id in ids && id !in byType
    {
      result, toLoad := map[], [];
      for i := 0 to |ids|
        invariant forall id :: id in result <==> id in ids[..i] && id in byType
        invariant forall id :: id in result ==> result[id] == byType[id]
        invariant forall id :: id in toLoad <==> id in ids[..i] && id !in byType
      {
        assert ids[..i + 1] == ids[..i] + [ids[i]];
        if ids[i] in byType {
          result := result[ids[i] := byType[ids[i]]];
        } else {
          toLoad := toLoad + [ids[i]];
        }
      }
      assert ids[..|ids|] == ids;
    }

    method InvalidateEntity(entityType: string, entityID: int)
      modifies this
      ensures translations == if entityType in old(translations)
                              then old(translations)[entityType := old(translations)[entityType] - {entityID}]
                              else old(translations)
    {
      if entityType in translations {
        translations := translations[entityType := translations[entityType] - {entityID}];
      }
    }

    method InvalidateType(entityType: string)
      modifies this
      ensures translations == old(translations) - {entityType}
    {
      translations := translations - {entityType};
    }

    method Invalidate()
      modifies this
      ensures translations == map[]
    {
      translations := map[];
    }
  }
}
