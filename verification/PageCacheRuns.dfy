/**
 Sequential runs of the page cache: they answer like the database, as long as every
 `InvalidateBySlug` covers its page, and they show which slugs it clears.
 */
module PageCacheRuns {
  import opened Common
  import opened Text
  import opened CacheContext
  import opened PageCaching
  import opened SlugInvalidation

  // ---------- One request at a time ----------

  /**
   A write is paired with the invalidation its handler issues:
   `InvalidatePage` for one page, `Invalidate` for a bulk change.
   */
  datatype Op =
    | WritePage(id: int, row: Option<Page>)
    | WriteMany(db: Pages)
    | LookupSlug(ctx: Context, slug: string)
    | LookupID(ctx: Context, pageID: int)
    | Warm(ctx: Context, pages: seq<Page>)
    | DropSlug(slug: string, scanned: int)

  function StoreAfter(db: Pages, op: Op): Pages
  {
    match op
    case WritePage(id, Some(p)) => db[id := p]
    case WritePage(id, None) => db - {id}
    case WriteMany(db') => db'
    case _ => db
  }

  ghost function CacheAfter(c: Indexes, db: Pages, op: Op): Indexes
  {
    match op
    case WritePage(id, _) => WithoutPage(c, id)
    case WriteMany(_) => EMPTY
    case LookupSlug(ctx, slug) => GetBySlugSpec(c, ctx, slug, BySlug(db, slug, ctx.languageCode)).0
    case LookupID(ctx, id) => GetByIDSpec(c, ctx, id, ByID(db, id)).0
    case Warm(ctx, pages) => Preloaded(c, pages, ctx)
    case DropSlug(slug, scanned) => WithoutSlug(c, slug, scanned)
  }

  /** What the cache answers, for the lookups. */
  ghost function CacheAnswer(c: Indexes, db: Pages, op: Op): Option<Lookup>
  {
    match op
    case LookupSlug(ctx, slug) => Some(GetBySlugSpec(c, ctx, slug, BySlug(db, slug, ctx.languageCode)).1)
    case LookupID(ctx, id) => Some(GetByIDSpec(c, ctx, id, ByID(db, id)).1)
    case _ => None
  }

  function FromRow(row: Option<Page>): Lookup
  {
    match row case Some(p) => Found(p) case None => NoRows
  }

  /** What the database alone would answer. */
  ghost function DirectAnswer(db: Pages, op: Op): Option<Lookup>
  {
    match op
    case LookupSlug(ctx, slug) =>
      Some(if ctx.languageCode == "" then NoLanguage else FromRow(BySlug(db, slug, ctx.languageCode)))
    case LookupID(ctx, id) => Some(FromRow(ByID(db, id)))
    case _ => None
  }

  /** Writes keep the table valid; contexts and preloaded rows are as callers pass them. */
  ghost predicate Allowed(c: Indexes, db: Pages, op: Op)
  {
    match op
    case LookupSlug(ctx, _) => ColonFree(ctx)
    case LookupID(ctx, _) => ColonFree(ctx)
    case Warm(ctx, pages) => ColonFree(ctx) && forall i :: 0 <= i < |pages| ==> Current(db, pages[i])
    case DropSlug(slug, scanned) => ScanLeaves(c, slug, scanned)
    case _ => ValidStore(StoreAfter(db, op))
  }

  lemma {:induction false} PreloadKeepsCoherent(c: Indexes, db: Pages, pages: seq<Page>, ctx: Context)
    requires Coherent(c, db) && ColonFree(ctx) && forall i :: 0 <= i < |pages| ==> Current(db, pages[i])
    ensures Coherent(Preloaded(c, pages, ctx), db)
  {
    if pages != [] {
      var n := |pages| - 1;
      assert Current(db, pages[n]);
      PreloadKeepsCoherent(c, db, pages[..n], ctx);
      StoreKeepsCoherent(Preloaded(c, pages[..n], ctx), db, pages[n], ctx);
    }
  }

  /** Entries of other pages do not notice the write. */
  lemma GoneKeepsAgreement(c: Indexes, db: Pages, id: int, row: Option<Page>)
    requires ValidStore(db) && ValidStore(StoreAfter(db, WritePage(id, row)))
    requires Agrees(c, db) && Gone(c, id)
    ensures Agrees(c, StoreAfter(db, WritePage(id, row)))
  {
    var db' := StoreAfter(db, WritePage(id, row));
    assert forall p: Page :: Current(db, p) && p.id != id ==> Current(db', p);
  }

  /** After a write to one page, the entries `InvalidatePage` leaves still agree. */
  lemma WritePageKeepsCoherent(c: Indexes, db: Pages, id: int, row: Option<Page>)
    requires Coherent(c, db) && ValidStore(StoreAfter(db, WritePage(id, row)))
    ensures Coherent(WithoutPage(c, id), StoreAfter(db, WritePage(id, row)))
  {
    InvalidatePageClears(c, id);
    WithoutPageIsWithin(c, id);
    WithinKeepsAgreement(c, WithoutPage(c, id), db);
    GoneKeepsAgreement(WithoutPage(c, id), db, id, row);
  }

  lemma LookupSlugIsDirect(c: Indexes, db: Pages, ctx: Context, slug: string)
    requires Coherent(c, db) && ColonFree(ctx)
    ensures CacheAnswer(c, db, LookupSlug(ctx, slug)) == DirectAnswer(db, LookupSlug(ctx, slug))
    ensures Coherent(CacheAfter(c, db, LookupSlug(ctx, slug)), db)
  {
    var key, row := PageKey(ctx, slug), BySlug(db, slug, ctx.languageCode);
    if key in c.bySlug {
      SlugEntryIsOfItsKey(c, ctx, slug);
      BySlugFinds(db, c.bySlug[key]);
    } else if ctx.languageCode != "" && row.Some? {
      StoreKeepsCoherent(c, db, row.value, ctx);
    }
  }

  lemma LookupIDIsDirect(c: Indexes, db: Pages, ctx: Context, id: int)
    requires Coherent(c, db) && ColonFree(ctx)
    ensures CacheAnswer(c, db, LookupID(ctx, id)) == DirectAnswer(db, LookupID(ctx, id))
    ensures Coherent(CacheAfter(c, db, LookupID(ctx, id)), db)
  {
    var key, row := PageIDKey(ctx, id), ByID(db, id);
    if key in c.byID {
      IDEntryIsOfItsKey(c, ctx, id);
    } else if row.Some? {
      StoreKeepsCoherent(c, db, row.value, ctx);
    }
  }

  lemma DropSlugKeepsCoherent(c: Indexes, db: Pages, slug: string, scanned: int)
    requires Coherent(c, db) && Covers(c, slug, scanned)
    ensures Coherent(WithoutSlug(c, slug, scanned), db)
  {
    ListedExactlyWhenCovered(c, slug, scanned);
    WithoutSlugIsWithin(c, slug, scanned);
    WithinKeepsAgreement(c, WithoutSlug(c, slug, scanned), db);
  }

  /** If this is `InvalidateBySlug`, its scan covers the page it settles on. */
  ghost predicate CoveredOp(c: Indexes, op: Op)
  {
    op.DropSlug? ==> Covers(c, op.slug, op.scanned)
  }

  lemma StepIsDirect(c: Indexes, db: Pages, op: Op)
    requires Coherent(c, db) && Allowed(c, db, op) && CoveredOp(c, op)
    ensures CacheAnswer(c, db, op) == DirectAnswer(db, op)
    ensures Coherent(CacheAfter(c, db, op), StoreAfter(db, op))
  {
    match op
    case WritePage(id, row) => WritePageKeepsCoherent(c, db, id, row);
    case WriteMany(_) =>
    case LookupSlug(ctx, slug) => LookupSlugIsDirect(c, db, ctx, slug);
    case LookupID(ctx, id) => LookupIDIsDirect(c, db, ctx, id);
    case Warm(ctx, pages) => PreloadKeepsCoherent(c, db, pages, ctx);
    case DropSlug(slug, scanned) => DropSlugKeepsCoherent(c, db, slug, scanned);
  }

  ghost predicate CanRun(c: Indexes, db: Pages, ops: seq<Op>)
    decreases |ops|
  {
    ops == [] ||
    (Allowed(c, db, ops[0]) && CanRun(CacheAfter(c, db, ops[0]), StoreAfter(db, ops[0]), ops[1..]))
  }

  ghost function CachedAnswers(c: Indexes, db: Pages, ops: seq<Op>): seq<Option<Lookup>>
    decreases |ops|
  {
    if ops == [] then [] else
      [CacheAnswer(c, db, ops[0])] + CachedAnswers(CacheAfter(c, db, ops[0]), StoreAfter(db, ops[0]), ops[1..])
  }

  ghost function DirectAnswers(db: Pages, ops: seq<Op>): seq<Option<Lookup>>
    decreases |ops|
  {
    if ops == [] then [] else [DirectAnswer(db, ops[0])] + DirectAnswers(StoreAfter(db, ops[0]), ops[1..])
  }

  /** Every `InvalidateBySlug` of the run covers the page it settles on. */
  ghost predicate CoveredRun(c: Indexes, db: Pages, ops: seq<Op>)
    decreases |ops|
  {
    ops == [] ||
    (CoveredOp(c, ops[0]) && CoveredRun(CacheAfter(c, db, ops[0]), StoreAfter(db, ops[0]), ops[1..]))
  }

  lemma {:induction false} RunIsDirect(c: Indexes, db: Pages, ops: seq<Op>)
    requires Coherent(c, db) && CanRun(c, db, ops) && CoveredRun(c, db, ops)
    ensures CachedAnswers(c, db, ops) == DirectAnswers(db, ops)
    decreases |ops|
  {
    if ops != [] {
      StepIsDirect(c, db, ops[0]);
      RunIsDirect(CacheAfter(c, db, ops[0]), StoreAfter(db, ops[0]), ops[1..]);
    }
  }

  /** The cache is invisible: every such run answers as if there were none. */
  lemma CacheIsTransparent(db: Pages, ops: seq<Op>)
    requires ValidStore(db) && CanRun(EMPTY, db, ops) && CoveredRun(EMPTY, db, ops)
    ensures CachedAnswers(EMPTY, db, ops) == DirectAnswers(db, ops)
  {
    RunIsDirect(EMPTY, db, ops);
  }

  // ---------- Which slugs may be dropped ----------

  predicate DropsOnly(ops: seq<Op>, slug: string)
  {
    forall i :: 0 <= i < |ops| && ops[i].DropSlug? ==> ops[i].slug == slug
  }

  lemma {:induction false} ColonFreeRunIsCovered(c: Indexes, db: Pages, ops: seq<Op>)
    requires Coherent(c, db) && CanRun(c, db, ops)
    requires forall i :: 0 <= i < |ops| && ops[i].DropSlug? ==> Free(ops[i].slug, ':')
    ensures CoveredRun(c, db, ops)
    decreases |ops|
  {
    if ops != [] {
      if ops[0].DropSlug? { ColonFreeSlugCovers(c, db, ops[0].slug, ops[0].scanned); }
      StepIsDirect(c, db, ops[0]);
      assert forall i :: 0 <= i < |ops[1..]| ==> ops[1..][i] == ops[i + 1];
      ColonFreeRunIsCovered(CacheAfter(c, db, ops[0]), StoreAfter(db, ops[0]), ops[1..]);
    }
  }

  /** Unfolds a run by one operation. */
  lemma RunStep(c: Indexes, db: Pages, op: Op, ops: seq<Op>)
    requires Allowed(c, db, op)
    ensures CanRun(c, db, [op] + ops) <==> CanRun(CacheAfter(c, db, op), StoreAfter(db, op), ops)
    ensures CoveredRun(c, db, [op] + ops)
            <==> CoveredOp(c, op) && CoveredRun(CacheAfter(c, db, op), StoreAfter(db, op), ops)
    ensures CachedAnswers(c, db, [op] + ops)
            == [CacheAnswer(c, db, op)] + CachedAnswers(CacheAfter(c, db, op), StoreAfter(db, op), ops)
    ensures DirectAnswers(db, [op] + ops) == [DirectAnswer(db, op)] + DirectAnswers(StoreAfter(db, op), ops)
  {
    assert ([op] + ops)[1..] == ops;
  }

  /** A difference further on is a difference. */
  lemma DifferenceStays(c: Indexes, db: Pages, op: Op, ops: seq<Op>)
    requires Allowed(c, db, op) && CanRun(CacheAfter(c, db, op), StoreAfter(db, op), ops)
    requires CachedAnswers(CacheAfter(c, db, op), StoreAfter(db, op), ops) != DirectAnswers(StoreAfter(db, op), ops)
    ensures CanRun(c, db, [op] + ops) && CachedAnswers(c, db, [op] + ops) != DirectAnswers(db, [op] + ops)
  {
    RunStep(c, db, op, ops);
    assert CachedAnswers(c, db, [op] + ops)[1..] == CachedAnswers(CacheAfter(c, db, op), StoreAfter(db, op), ops);
    assert DirectAnswers(db, [op] + ops)[1..] == DirectAnswers(StoreAfter(db, op), ops);
  }

  /** An entry that its page's reverse index does not list is served after the page is gone. */
  lemma UnlistedEntryIsServed(c: Indexes, db: Pages, id: int, ctx: Context, slug: string) returns (ops: seq<Op>)
    requires ValidStore(db) && ColonFree(ctx) && ctx.languageCode != "" && KeysOf(c, id) == []
    requires PageKey(ctx, slug) in c.bySlug && c.bySlug[PageKey(ctx, slug)].id == id
    ensures forall op :: op in ops ==> !op.DropSlug?
    ensures CanRun(c, db, ops) && CoveredRun(c, db, ops) && CachedAnswers(c, db, ops) != DirectAnswers(db, ops)
  {
    var db', c', ask := db - {id}, WithoutPage(c, id), LookupSlug(ctx, slug);
    assert c'.bySlug == c.bySlug;
    RunStep(c', db', ask, []);
    assert CachedAnswers(c', db', [ask] + [])[0] == Some(Found(c.bySlug[PageKey(ctx, slug)]));
    assert DirectAnswers(db', [ask] + [])[0] == DirectAnswer(db', ask) != Some(Found(c.bySlug[PageKey(ctx, slug)]));
    assert [ask] + [] == [ask];
    DifferenceStays(c, db, WritePage(id, None), [ask]);
    RunStep(c, db, WritePage(id, None), [ask]);
    ops := [WritePage(id, None)] + [ask];
  }

  /** The key of a cached slug entry, as the context and slug that look it up. */
  lemma KeyIsLookedUp(c: Indexes, k: string) returns (ctx: Context)
    requires Filed(c) && k in c.bySlug
    ensures ColonFree(ctx) && ctx.languageCode == c.bySlug[k].languageCode && k == PageKey(ctx, c.bySlug[k].slug)
  {
    var p := c.bySlug[k];
    assert FiledBySlug(k, p);
    var role :| Free(role, ':') && Free(p.languageCode, ':') && k == PageKey(Context(p.languageCode, role), p.slug);
    ctx := Context(p.languageCode, role);
  }

  ghost predicate LanguagesNamed(db: Pages)
  {
    forall id :: id in db ==> db[id].languageCode != ""
  }

  /** A scan that misses a variant of the page it settles on leaves one that is served after the page is gone. */
  lemma UncoveredVariantIsServed(c: Indexes, db: Pages, slug: string, scanned: int) returns (ops: seq<Op>)
    requires Coherent(c, db) && LanguagesNamed(db) && !Covers(c, slug, scanned)
    ensures var c' := WithoutSlug(c, slug, scanned);
            && DropsOnly(ops, slug) && CanRun(c', db, ops) && CoveredRun(c', db, ops)
            && CachedAnswers(c', db, ops) != DirectAnswers(db, ops)
  {
    var k := MissedVariant(c, slug, scanned);
    var ctx := KeyIsLookedUp(c, k);
    assert Current(db, c.bySlug[k]);
    ops := UnlistedEntryIsServed(WithoutSlug(c, slug, scanned), db, scanned, ctx, c.bySlug[k].slug);
  }

  /**
   Over pages that name their language, one `InvalidateBySlug` is harmless to every later run
   whose own slug scans cover their pages, exactly when its scan covers its page.
   */
  lemma DropIsTransparentExactlyWhenCovered(c: Indexes, db: Pages, slug: string, scanned: int)
    requires Coherent(c, db) && LanguagesNamed(db)
    ensures (forall ops :: var c' := WithoutSlug(c, slug, scanned);
                           CanRun(c', db, ops) && CoveredRun(c', db, ops)
                           ==> CachedAnswers(c', db, ops) == DirectAnswers(db, ops))
            <==> Covers(c, slug, scanned)
  {
    var c' := WithoutSlug(c, slug, scanned);
    if Covers(c, slug, scanned) {
      DropSlugKeepsCoherent(c, db, slug, scanned);
      forall ops | CanRun(c', db, ops) && CoveredRun(c', db, ops) ensures CachedAnswers(c', db, ops) == DirectAnswers(db, ops) {
        RunIsDirect(c', db, ops);
      }
    } else {
      var ops := UncoveredVariantIsServed(c, db, slug, scanned);
      assert CanRun(c', db, ops) && CoveredRun(c', db, ops);
    }
  }

  lemma LookupsStoreTwoVariants(role: string, rest: string, ops: seq<Op>)
    requires Free(role, ':') && CanRun(TwoVariants(role, rest), map[1 := OnePage(rest)], ops)
    requires CachedAnswers(TwoVariants(role, rest), map[1 := OnePage(rest)], ops) != DirectAnswers(map[1 := OnePage(rest)], ops)
    ensures var db := map[1 := OnePage(rest)];
            var all := [LookupID(Context("en", role), 1)] + ([LookupID(Context("en", role + "x"), 1)] + ops);
            CanRun(EMPTY, db, all) && CachedAnswers(EMPTY, db, all) != DirectAnswers(db, all)
  {
    var p, one, two := OnePage(rest), Context("en", role), Context("en", role + "x");
    var db, c := map[1 := p], Stored(EMPTY, p, one);
    PageIDKeyInjective(one, two, 1, 1);
    assert PageIDKey(two, 1) !in c.byID;
    assert CacheAfter(EMPTY, db, LookupID(one, 1)) == c;
    assert CacheAfter(c, db, LookupID(two, 1)) == TwoVariants(role, rest);
    DifferenceStays(c, db, LookupID(two, 1), ops);
    DifferenceStays(EMPTY, db, LookupID(one, 1), [LookupID(two, 1)] + ops);
  }

  lemma DropMisleads(c: Indexes, db: Pages, slug: string, scanned: int) returns (ops: seq<Op>)
    requires Coherent(c, db) && LanguagesNamed(db) && ScanLeaves(c, slug, scanned) && !Covers(c, slug, scanned)
    ensures DropsOnly(ops, slug) && CanRun(c, db, ops) && CachedAnswers(c, db, ops) != DirectAnswers(db, ops)
  {
    var last := UncoveredVariantIsServed(c, db, slug, scanned);
    DifferenceStays(c, db, DropSlug(slug, scanned), last);
    ops := [DropSlug(slug, scanned)] + last;
  }

  lemma ColonSlugMisleads(slug: string) returns (db: Pages, ops: seq<Op>)
    requires !Free(slug, ':')
    ensures ValidStore(db) && CanRun(EMPTY, db, ops) && DropsOnly(ops, slug)
    ensures CachedAnswers(EMPTY, db, ops) != DirectAnswers(db, ops)
  {
    var role, rest := CutAtColon(slug);
    db := map[1 := OnePage(rest)];
    SlugStrandsAVariant(role, rest);
    var last := DropMisleads(TwoVariants(role, rest), db, slug, 1);
    LookupsStoreTwoVariants(role, rest, last);
    ops := [LookupID(Context("en", role), 1)] + ([LookupID(Context("en", role + "x"), 1)] + last);
  }

  /** Dropping a slug is harmless to every run exactly when the slug holds no colon. */
  lemma DropsAreTransparentExactlyWhenColonFree(slug: string)
    ensures (forall db, ops :: ValidStore(db) && CanRun(EMPTY, db, ops) && DropsOnly(ops, slug)
                               ==> CachedAnswers(EMPTY, db, ops) == DirectAnswers(db, ops))
            <==> Free(slug, ':')
  {
    if Free(slug, ':') {
      forall db, ops | ValidStore(db) && CanRun(EMPTY, db, ops) && DropsOnly(ops, slug)
        ensures CachedAnswers(EMPTY, db, ops) == DirectAnswers(db, ops)
      {
        ColonFreeRunIsCovered(EMPTY, db, ops);
        CacheIsTransparent(db, ops);
      }
    } else {
      var db, ops := ColonSlugMisleads(slug);
    }
  }
}
