/**
 Interleaved runs of the page cache: lookups query outside the lock, so an event can fall
 between a query and its store. Languages stay apart in every such run; agreement with the
 database holds exactly when every stored row is still the database's.
 */
module PageInterleavings {
  import opened Common
  import opened Text
  import opened CacheContext
  import opened PageCaching
  import opened SlugInvalidation

  // ---------- The machine ----------

  datatype Query = SlugQuery(slug: string) | IDQuery(pageID: int)

  /** A lookup past its cache miss: about to query, or holding a row it has not stored yet. */
  datatype Pending = Asking(ctx: Context, query: Query) | Holding(ctx: Context, query: Query, page: Page)

  datatype Served = Served(ctx: Context, query: Query, page: Page)

  datatype Shared = Shared(db: Pages, cache: Indexes, pending: map<nat, Pending>, served: seq<Served>)

  /** The query runs outside the lock, so any event can fall between `Ask` and `Keep`. */
  datatype Event =
    | Write(db: Pages)
    | Lookup(thread: nat, ctx: Context, query: Query)
    | Ask(thread: nat)
    | Keep(thread: nat)
    | StoreWarm(ctx: Context, page: Page)
    | DropPage(id: int)
    | DropBySlug(slug: string, scanned: int)
    | DropAll

  ghost function RowFor(db: Pages, ctx: Context, q: Query): Option<Page>
  {
    match q
    case SlugQuery(slug) => BySlug(db, slug, ctx.languageCode)
    case IDQuery(id) => ByID(db, id)
  }

  function Hit(c: Indexes, ctx: Context, q: Query): Option<Page>
  {
    match q
    case SlugQuery(slug) => if PageKey(ctx, slug) in c.bySlug then Some(c.bySlug[PageKey(ctx, slug)]) else None
    case IDQuery(id) => if PageIDKey(ctx, id) in c.byID then Some(c.byID[PageIDKey(ctx, id)]) else None
  }

  ghost predicate CanHappen(s: Shared, e: Event)
  {
    match e
    case Write(db) => ValidStore(db)
    case Lookup(t, ctx, q) => t !in s.pending && ColonFree(ctx) && (q.SlugQuery? ==> ctx.languageCode != "")
    case Ask(t) => t in s.pending && s.pending[t].Asking?
    case Keep(t) => t in s.pending && s.pending[t].Holding?
    case StoreWarm(ctx, page) => ColonFree(ctx) && page.languageCode == ctx.languageCode
    case DropBySlug(slug, scanned) => ScanLeaves(s.cache, slug, scanned)
    case _ => true
  }

  ghost function Happen(s: Shared, e: Event): Shared
    requires CanHappen(s, e)
  {
    match e
    case Write(db) => s.(db := db)
    case Lookup(t, ctx, q) =>
      var hit := Hit(s.cache, ctx, q);
      if hit.Some? then s.(served := s.served + [Served(ctx, q, hit.value)])
      else s.(pending := s.pending[t := Asking(ctx, q)])
    case Ask(t) =>
      var p := s.pending[t];
      var row := RowFor(s.db, p.ctx, p.query);
      if row.None? then s.(pending := s.pending - {t})
      else s.(pending := s.pending[t := Holding(p.ctx, p.query, row.value)])
    case Keep(t) =>
      var p := s.pending[t];
      s.(cache := Stored(s.cache, p.page, p.ctx), pending := s.pending - {t},
         served := s.served + [Served(p.ctx, p.query, p.page)])
    case StoreWarm(ctx, page) => s.(cache := Stored(s.cache, page, ctx))
    case DropPage(id) => s.(cache := WithoutPage(s.cache, id))
    case DropBySlug(slug, scanned) => s.(cache := WithoutSlug(s.cache, slug, scanned))
    case DropAll => s.(cache := EMPTY)
  }

  // ---------- A lookup that nothing interrupts ----------

  /** What the cache's method makes of the lookup, with the database as it is. */
  ghost function Uninterrupted(c: Indexes, db: Pages, ctx: Context, q: Query): (Indexes, PageCaching.Lookup)
  {
    match q
    case SlugQuery(slug) => GetBySlugSpec(c, ctx, slug, BySlug(db, slug, ctx.languageCode))
    case IDQuery(id) => GetByIDSpec(c, ctx, id, ByID(db, id))
  }

  /** A hit, a miss without a row and a miss with one, step by step, are what the method does. */
  lemma UninterruptedLookupIsTheMethod(s: Shared, t: nat, ctx: Context, q: Query)
    requires t !in s.pending && ColonFree(ctx) && (q.SlugQuery? ==> ctx.languageCode != "")
    ensures var (c', r) := Uninterrupted(s.cache, s.db, ctx, q);
            var hit, row, s1 := Hit(s.cache, ctx, q), RowFor(s.db, ctx, q), Happen(s, Lookup(t, ctx, q));
            if hit.Some? then
              r == Found(hit.value) && s1 == s.(cache := c', served := s.served + [Served(ctx, q, hit.value)])
            else
              CanHappen(s1, Ask(t)) &&
              var s2 := Happen(s1, Ask(t));
              if row.None? then r == NoRows && s2 == s.(cache := c')
              else
                && CanHappen(s2, Keep(t)) && r == Found(row.value)
                && Happen(s2, Keep(t)) == s.(cache := c', served := s.served + [Served(ctx, q, row.value)])
  {
    var asked := s.pending[t := Asking(ctx, q)];
    assert asked - {t} == s.pending;
    if RowFor(s.db, ctx, q).Some? {
      assert asked[t := Holding(ctx, q, RowFor(s.db, ctx, q).value)] - {t} == s.pending;
    }
  }

  // ---------- Isolation of languages ----------

  /** The page is the one asked for, in the language asked for. */
  ghost predicate Owns(ctx: Context, q: Query, p: Page)
  {
    match q
    case SlugQuery(slug) => p.slug == slug && p.languageCode == ctx.languageCode
    case IDQuery(id) => p.id == id
  }

  ghost predicate PendingInv(p: Pending)
  {
    && ColonFree(p.ctx)
    && (p.Holding? ==> Owns(p.ctx, p.query, p.page) && Free(p.page.languageCode, ':'))
  }

  ghost predicate Isolated(s: Shared)
  {
    && ValidStore(s.db)
    && Filed(s.cache)
    && (forall t :: t in s.pending ==> PendingInv(s.pending[t]))
    && (forall i :: 0 <= i < |s.served| ==> Owns(s.served[i].ctx, s.served[i].query, s.served[i].page))
  }

  lemma HitIsOwned(c: Indexes, ctx: Context, q: Query)
    requires Filed(c) && ColonFree(ctx) && Hit(c, ctx, q).Some?
    ensures Owns(ctx, q, Hit(c, ctx, q).value)
  {
    match q
    case SlugQuery(slug) => SlugEntryIsOfItsKey(c, ctx, slug);
    case IDQuery(id) => IDEntryIsOfItsKey(c, ctx, id);
  }

  lemma EventKeepsIsolated(s: Shared, e: Event)
    requires Isolated(s) && CanHappen(s, e)
    ensures Isolated(Happen(s, e))
  {
    match e
    case Lookup(t, ctx, q) => if Hit(s.cache, ctx, q).Some? { HitIsOwned(s.cache, ctx, q); }
    case Ask(t) => assert PendingInv(s.pending[t]);
    case Keep(t) =>
      assert PendingInv(s.pending[t]);
      StoreKeepsFiled(s.cache, s.pending[t].page, s.pending[t].ctx);
    case StoreWarm(ctx, page) => StoreKeepsFiled(s.cache, page, ctx);
    case _ =>
  }

  ghost predicate CanInterleave(s: Shared, es: seq<Event>)
    decreases |es|
  {
    es == [] || (CanHappen(s, es[0]) && CanInterleave(Happen(s, es[0]), es[1..]))
  }

  ghost function Interleave(s: Shared, es: seq<Event>): Shared
    requires CanInterleave(s, es)
    decreases |es|
  {
    if es == [] then s else Interleave(Happen(s, es[0]), es[1..])
  }

  lemma {:induction false} InterleavingKeepsIsolated(s: Shared, es: seq<Event>)
    requires Isolated(s) && CanInterleave(s, es)
    ensures Isolated(Interleave(s, es))
    decreases |es|
  {
    if es != [] {
      EventKeepsIsolated(s, es[0]);
      InterleavingKeepsIsolated(Happen(s, es[0]), es[1..]);
    }
  }

  /**
   In every interleaving, a slug lookup in a language is only ever served a page of that
   language with that slug, and an id lookup the page with that id.
   */
  lemma LookupsNeverCrossLanguages(db: Pages, es: seq<Event>, i: nat)
    requires ValidStore(db) && CanInterleave(Shared(db, EMPTY, map[], []), es)
    requires i < |Interleave(Shared(db, EMPTY, map[], []), es).served|
    ensures var s := Interleave(Shared(db, EMPTY, map[], []), es).served[i]; Owns(s.ctx, s.query, s.page)
  {
    InterleavingKeepsIsolated(Shared(db, EMPTY, map[], []), es);
  }

  // ---------- Agreement with the database ----------

  /** The pages whose row a write changes. */
  ghost function Changed(before: Pages, after: Pages): set<int>
  {
    set id | id in before.Keys + after.Keys
             && (id !in before || id !in after || before[id] != after[id])
  }

  /** `dirty` are the pages written since they were last invalidated. */
  ghost function DirtyAfter(s: Shared, dirty: set<int>, e: Event): set<int>
  {
    match e
    case Write(db) => dirty + Changed(s.db, db)
    case DropPage(id) => dirty - {id}
    case DropBySlug(_, scanned) => if scanned > 0 then dirty - {scanned} else dirty
    case DropAll => {}
    case _ => dirty
  }

  ghost predicate Fresh(db: Pages, dirty: set<int>, p: Page)
  {
    p.id in dirty || Current(db, p)
  }

  /** Every entry is the database's row, or of a page whose invalidation is still to come. */
  ghost predicate AgreesButFor(c: Indexes, db: Pages, dirty: set<int>)
  {
    && (forall k :: k in c.bySlug ==> Fresh(db, dirty, c.bySlug[k]))
    && (forall k :: k in c.byID ==> Fresh(db, dirty, c.byID[k]))
  }

  /** The cache agrees, and the next invalidation of a page will find all its entries. */
  ghost predicate InOrder(s: Shared, dirty: set<int>)
  {
    Listed(s.cache) && AgreesButFor(s.cache, s.db, dirty)
  }

  /** The row stored is still the database's, and a slug scan covers the page it settles on. */
  ghost predicate Timely(s: Shared, dirty: set<int>, e: Event)
  {
    match e
    case Keep(t) => t in s.pending && s.pending[t].Holding? && Fresh(s.db, dirty, s.pending[t].page)
    case StoreWarm(_, page) => Fresh(s.db, dirty, page)
    case DropBySlug(slug, scanned) => Covers(s.cache, slug, scanned)
    case _ => true
  }

  lemma WriteKeepsAgreement(c: Indexes, db: Pages, db': Pages, dirty: set<int>)
    requires AgreesButFor(c, db, dirty)
    ensures AgreesButFor(c, db', dirty + Changed(db, db'))
  {
  }

  lemma WithinKeepsFresh(c: Indexes, c': Indexes, db: Pages, dirty: set<int>, id: int)
    requires AgreesButFor(c, db, dirty) && Within(c', c) && Gone(c', id)
    ensures AgreesButFor(c', db, dirty - {id})
  {
    assert forall k :: k in c'.bySlug ==> Fresh(db, dirty, c.bySlug[k]);
    assert forall k :: k in c'.byID ==> Fresh(db, dirty, c.byID[k]);
  }

  lemma StoreAgreesExactlyWhenFresh(c: Indexes, db: Pages, dirty: set<int>, page: Page, ctx: Context)
    requires AgreesButFor(c, db, dirty)
    ensures AgreesButFor(Stored(c, page, ctx), db, dirty) <==> Fresh(db, dirty, page)
  {
    var c' := Stored(c, page, ctx);
    assert c'.byID[PageIDKey(ctx, page.id)] == page;
  }

  lemma DropPageKeepsOrder(c: Indexes, db: Pages, dirty: set<int>, id: int)
    requires Listed(c) && AgreesButFor(c, db, dirty)
    ensures Listed(WithoutPage(c, id)) && AgreesButFor(WithoutPage(c, id), db, dirty - {id})
  {
    InvalidatePageClears(c, id);
    WithoutPageIsWithin(c, id);
    WithinKeepsFresh(c, WithoutPage(c, id), db, dirty, id);
  }

  lemma DropBySlugKeepsAgreement(c: Indexes, db: Pages, dirty: set<int>, slug: string, scanned: int)
    requires Filed(c) && AgreesButFor(c, db, dirty) && Covers(c, slug, scanned)
    ensures AgreesButFor(WithoutSlug(c, slug, scanned), db, if scanned > 0 then dirty - {scanned} else dirty)
  {
    WithoutSlugIsWithin(c, slug, scanned);
    if scanned > 0 {
      CoveredPageIsGone(c, slug, scanned);
      WithinKeepsFresh(c, WithoutSlug(c, slug, scanned), db, dirty, scanned);
    }
  }

  /** An event keeps the cache in order exactly when it is timely. */
  lemma EventKeepsOrderExactlyWhenTimely(s: Shared, dirty: set<int>, e: Event)
    requires Isolated(s) && InOrder(s, dirty) && CanHappen(s, e)
    ensures InOrder(Happen(s, e), DirtyAfter(s, dirty, e)) <==> Timely(s, dirty, e)
  {
    match e
    case Write(db) => WriteKeepsAgreement(s.cache, s.db, db, dirty);
    case Keep(t) =>
      StoreKeepsListed(s.cache, s.pending[t].page, s.pending[t].ctx);
      StoreAgreesExactlyWhenFresh(s.cache, s.db, dirty, s.pending[t].page, s.pending[t].ctx);
    case StoreWarm(ctx, page) =>
      StoreKeepsListed(s.cache, page, ctx);
      StoreAgreesExactlyWhenFresh(s.cache, s.db, dirty, page, ctx);
    case DropPage(id) => DropPageKeepsOrder(s.cache, s.db, dirty, id);
    case DropBySlug(slug, scanned) =>
      ListedExactlyWhenCovered(s.cache, slug, scanned);
      if Covers(s.cache, slug, scanned) { DropBySlugKeepsAgreement(s.cache, s.db, dirty, slug, scanned); }
    case _ =>
  }

  /** A colon-free slug covers any page that does not await invalidation. */
  lemma ColonFreeScanIsTimely(s: Shared, dirty: set<int>, slug: string, scanned: int)
    requires Isolated(s) && InOrder(s, dirty) && ScanLeaves(s.cache, slug, scanned)
    requires Free(slug, ':') && scanned !in dirty
    ensures Timely(s, dirty, DropBySlug(slug, scanned))
  {
    assert forall k :: k in s.cache.bySlug ==> Fresh(s.db, dirty, s.cache.bySlug[k]);
    OneSlugIsCovered(s.cache, slug, scanned);
  }

  /** In order now and after every event. */
  ghost predicate StaysInOrder(s: Shared, dirty: set<int>, es: seq<Event>)
    requires CanInterleave(s, es)
    decreases |es|
  {
    InOrder(s, dirty) && (es == [] || StaysInOrder(Happen(s, es[0]), DirtyAfter(s, dirty, es[0]), es[1..]))
  }

  ghost predicate AllTimely(s: Shared, dirty: set<int>, es: seq<Event>)
    requires CanInterleave(s, es)
    decreases |es|
  {
    es == [] || (Timely(s, dirty, es[0]) && AllTimely(Happen(s, es[0]), DirtyAfter(s, dirty, es[0]), es[1..]))
  }

  lemma {:induction false} OrderIsTimeliness(s: Shared, dirty: set<int>, es: seq<Event>)
    requires Isolated(s) && InOrder(s, dirty) && CanInterleave(s, es)
    ensures StaysInOrder(s, dirty, es) <==> AllTimely(s, dirty, es)
    decreases |es|
  {
    if es != [] {
      var s', dirty' := Happen(s, es[0]), DirtyAfter(s, dirty, es[0]);
      EventKeepsOrderExactlyWhenTimely(s, dirty, es[0]);
      EventKeepsIsolated(s, es[0]);
      if InOrder(s', dirty') {
        OrderIsTimeliness(s', dirty', es[1..]);
      }
    }
  }

  /**
   An interleaved run agrees with the database at every point, but for pages whose
   invalidation is still to come, exactly when every row is stored while it is still the
   database's and every slug scan covers its page.
   */
  lemma InterleavingAgreesExactlyWhenTimely(db: Pages, es: seq<Event>)
    requires ValidStore(db) && CanInterleave(Shared(db, EMPTY, map[], []), es)
    ensures StaysInOrder(Shared(db, EMPTY, map[], []), {}, es) <==> AllTimely(Shared(db, EMPTY, map[], []), {}, es)
  {
    OrderIsTimeliness(Shared(db, EMPTY, map[], []), {}, es);
  }

  // ---------- What lookups are answered ----------

  /** The page is what the database answers now, or still awaits invalidation. */
  ghost predicate IsRight(s: Shared, dirty: set<int>, a: Served)
  {
    a.page.id in dirty || RowFor(s.db, a.ctx, a.query) == Some(a.page)
  }

  /** Whatever the event serves is right as of the moment it is served. */
  ghost predicate ServesRight(s: Shared, dirty: set<int>, e: Event)
    requires CanHappen(s, e)
  {
    var served := Happen(s, e).served;
    forall i :: |s.served| <= i < |served| ==> IsRight(s, dirty, served[i])
  }

  ghost predicate AllServeRight(s: Shared, dirty: set<int>, es: seq<Event>)
    requires CanInterleave(s, es)
    decreases |es|
  {
    es == [] || (ServesRight(s, dirty, es[0]) && AllServeRight(Happen(s, es[0]), DirtyAfter(s, dirty, es[0]), es[1..]))
  }

  /** A page that owns what was asked and is fresh is what the database answers. */
  lemma OwnedRowIsRight(s: Shared, dirty: set<int>, a: Served)
    requires ValidStore(s.db) && Owns(a.ctx, a.query, a.page) && Fresh(s.db, dirty, a.page)
    ensures IsRight(s, dirty, a)
  {
    if a.page.id !in dirty && a.query.SlugQuery? { BySlugFinds(s.db, a.page); }
  }

  lemma HitIsRight(s: Shared, dirty: set<int>, ctx: Context, q: Query)
    requires Isolated(s) && InOrder(s, dirty) && ColonFree(ctx) && Hit(s.cache, ctx, q).Some?
    ensures IsRight(s, dirty, Served(ctx, q, Hit(s.cache, ctx, q).value))
  {
    HitIsOwned(s.cache, ctx, q);
    OwnedRowIsRight(s, dirty, Served(ctx, q, Hit(s.cache, ctx, q).value));
  }

  lemma TimelyEventServesRight(s: Shared, dirty: set<int>, e: Event)
    requires Isolated(s) && InOrder(s, dirty) && CanHappen(s, e) && Timely(s, dirty, e)
    ensures ServesRight(s, dirty, e)
  {
    match e
    case Lookup(t, ctx, q) => if Hit(s.cache, ctx, q).Some? { HitIsRight(s, dirty, ctx, q); }
    case Keep(t) =>
      var p := s.pending[t];
      assert PendingInv(p);
      OwnedRowIsRight(s, dirty, Served(p.ctx, p.query, p.page));
    case _ =>
  }

  lemma {:induction false} TimelyRunServesRight(s: Shared, dirty: set<int>, es: seq<Event>)
    requires Isolated(s) && InOrder(s, dirty) && CanInterleave(s, es) && AllTimely(s, dirty, es)
    ensures AllServeRight(s, dirty, es)
    decreases |es|
  {
    if es != [] {
      TimelyEventServesRight(s, dirty, es[0]);
      EventKeepsOrderExactlyWhenTimely(s, dirty, es[0]);
      EventKeepsIsolated(s, es[0]);
      TimelyRunServesRight(Happen(s, es[0]), DirtyAfter(s, dirty, es[0]), es[1..]);
    }
  }

  /** In a timely run every lookup is served the database's row, or a page awaiting invalidation. */
  lemma TimelyLookupsAreRight(db: Pages, es: seq<Event>)
    requires ValidStore(db) && CanInterleave(Shared(db, EMPTY, map[], []), es)
    requires AllTimely(Shared(db, EMPTY, map[], []), {}, es)
    ensures AllServeRight(Shared(db, EMPTY, map[], []), {}, es)
  {
    TimelyRunServesRight(Shared(db, EMPTY, map[], []), {}, es);
  }

  // ---------- What callers must avoid ----------

  /** `late` are the calls whose page was written after they fetched it. */
  ghost function LateAfter(s: Shared, late: set<nat>, e: Event): set<nat>
  {
    match e
    case Write(db) =>
      late + set t | t in s.pending && s.pending[t].Holding? && s.pending[t].page.id in Changed(s.db, db)
    case Ask(t) => late - {t}
    case _ => late
  }

  ghost predicate HoldsCurrent(s: Shared, late: set<nat>)
  {
    forall t :: t in s.pending && s.pending[t].Holding? && t !in late ==> Current(s.db, s.pending[t].page)
  }

  /**
   What callers can see to: no write to the page falls between its query and its store, unless
   it still awaits invalidation; and a slug that is dropped holds no colon and its page does
   not await invalidation.
   */
  ghost predicate Undisturbed(s: Shared, dirty: set<int>, late: set<nat>, e: Event)
  {
    match e
    case Keep(t) => t !in late || (t in s.pending && s.pending[t].Holding? && s.pending[t].page.id in dirty)
    case DropBySlug(slug, scanned) => (Free(slug, ':') && scanned !in dirty) || Covers(s.cache, slug, scanned)
    case _ => Timely(s, dirty, e)
  }

  ghost predicate AllUndisturbed(s: Shared, dirty: set<int>, late: set<nat>, es: seq<Event>)
    requires CanInterleave(s, es)
    decreases |es|
  {
    es == [] ||
    (Undisturbed(s, dirty, late, es[0])
     && AllUndisturbed(Happen(s, es[0]), DirtyAfter(s, dirty, es[0]), LateAfter(s, late, es[0]), es[1..]))
  }

  lemma EventKeepsHoldsCurrent(s: Shared, late: set<nat>, e: Event)
    requires Isolated(s) && HoldsCurrent(s, late) && CanHappen(s, e)
    ensures HoldsCurrent(Happen(s, e), LateAfter(s, late, e))
  {
    var s', late' := Happen(s, e), LateAfter(s, late, e);
    forall t | t in s'.pending && s'.pending[t].Holding? && t !in late' ensures Current(s'.db, s'.pending[t].page) {
      if t in s.pending && s.pending[t].Holding? && t !in late { assert Current(s.db, s.pending[t].page); }
    }
  }

  lemma UndisturbedIsTimely(s: Shared, dirty: set<int>, late: set<nat>, e: Event)
    requires Isolated(s) && InOrder(s, dirty) && HoldsCurrent(s, late)
    requires CanHappen(s, e) && Undisturbed(s, dirty, late, e)
    ensures Timely(s, dirty, e)
  {
    if e.DropBySlug? && Free(e.slug, ':') && e.scanned !in dirty {
      ColonFreeScanIsTimely(s, dirty, e.slug, e.scanned);
    }
  }

  lemma {:induction false} UndisturbedRunIsTimely(s: Shared, dirty: set<int>, late: set<nat>, es: seq<Event>)
    requires Isolated(s) && InOrder(s, dirty) && HoldsCurrent(s, late)
    requires CanInterleave(s, es) && AllUndisturbed(s, dirty, late, es)
    ensures AllTimely(s, dirty, es)
    decreases |es|
  {
    if es != [] {
      UndisturbedIsTimely(s, dirty, late, es[0]);
      EventKeepsOrderExactlyWhenTimely(s, dirty, es[0]);
      EventKeepsIsolated(s, es[0]);
      EventKeepsHoldsCurrent(s, late, es[0]);
      UndisturbedRunIsTimely(Happen(s, es[0]), DirtyAfter(s, dirty, es[0]), LateAfter(s, late, es[0]), es[1..]);
    }
  }

  /**
   So it is enough that no page is written between a lookup's query and its store, and that
   slugs are dropped without colons and for pages that do not await invalidation.
   */
  lemma UndisturbedLookupsAgree(db: Pages, es: seq<Event>)
    requires ValidStore(db) && CanInterleave(Shared(db, EMPTY, map[], []), es)
    requires AllUndisturbed(Shared(db, EMPTY, map[], []), {}, {}, es)
    ensures StaysInOrder(Shared(db, EMPTY, map[], []), {}, es)
    ensures AllServeRight(Shared(db, EMPTY, map[], []), {}, es)
  {
    UndisturbedRunIsTimely(Shared(db, EMPTY, map[], []), {}, {}, es);
    OrderIsTimeliness(Shared(db, EMPTY, map[], []), {}, es);
    TimelyRunServesRight(Shared(db, EMPTY, map[], []), {}, es);
  }

  /**
   A run that is not timely: a row fetched before a delete is stored after the delete's
   invalidation.
   */
  lemma InterleavingCanCacheADeletedPage(p: Page)
    requires p == Page(1, "a", "en", true, "")
    ensures var ctx := Context("en", "public");
            var es := [Lookup(0, ctx, IDQuery(1)), Ask(0), Write(map[]), DropPage(1), Keep(0)];
            && CanInterleave(Shared(map[1 := p], EMPTY, map[], []), es)
            && !Agrees(Interleave(Shared(map[1 := p], EMPTY, map[], []), es).cache, map[])
  {
    var ctx := Context("en", "public");
    var s0 := Shared(map[1 := p], EMPTY, map[], []);
    var ask := Lookup(0, ctx, IDQuery(1));
    var s3 := Happen(Happen(Happen(s0, ask), Ask(0)), Write(map[]));
    var s4 := Happen(s3, DropPage(1));
    EventStep(s4, Keep(0), []);
    EventStep(s3, DropPage(1), [Keep(0)]);
    assert [Keep(0)] + [] == [Keep(0)] && [DropPage(1)] + [Keep(0)] == [DropPage(1), Keep(0)];
    ThreeEvents(s0, ask, Ask(0), Write(map[]), [DropPage(1), Keep(0)]);
    assert [ask, Ask(0), Write(map[])] + [DropPage(1), Keep(0)] == [ask, Ask(0), Write(map[]), DropPage(1), Keep(0)];
    assert PageIDKey(ctx, 1) in Happen(s4, Keep(0)).cache.byID;
  }

  /** Unfolds an interleaving by three events. */
  lemma ThreeEvents(s: Shared, a: Event, b: Event, c: Event, es: seq<Event>)
    requires CanHappen(s, a) && CanHappen(Happen(s, a), b) && CanHappen(Happen(Happen(s, a), b), c)
    requires CanInterleave(Happen(Happen(Happen(s, a), b), c), es)
    ensures CanInterleave(s, [a, b, c] + es)
    ensures Interleave(s, [a, b, c] + es) == Interleave(Happen(Happen(Happen(s, a), b), c), es)
  {
    EventStep(Happen(Happen(s, a), b), c, es);
    EventStep(Happen(s, a), b, [c] + es);
    EventStep(s, a, [b] + ([c] + es));
    assert [a] + ([b] + ([c] + es)) == [a, b, c] + es;
  }

  /** Unfolds an interleaving by one event. */
  lemma EventStep(s: Shared, e: Event, es: seq<Event>)
    requires CanHappen(s, e) && CanInterleave(Happen(s, e), es)
    ensures CanInterleave(s, [e] + es) && Interleave(s, [e] + es) == Interleave(Happen(s, e), es)
  {
    assert ([e] + es)[1..] == es;
  }
}
