/**
 Which slugs `InvalidateBySlug` clears after every sequential run in which earlier slug scans
 covered their pages: all but the decimal page ids. The id key of page 5 is the slug key of a
 page with slug "5", so invalidating page 5 hides the other page from the slug scan. After a
 scan that missed a variant of its page, no slug is safe.
 */
module SlugClearing {
  import opened Common
  import opened Text
  import opened CacheContext
  import opened PageCaching
  import opened SlugInvalidation
  import opened PageCacheRuns

  // ---------- The cache and the store after a run ----------

  ghost function FinalCache(c: Indexes, db: Pages, ops: seq<Op>): Indexes
    decreases |ops|
  {
    if ops == [] then c else FinalCache(CacheAfter(c, db, ops[0]), StoreAfter(db, ops[0]), ops[1..])
  }

  /** Every store of the run has colon-free slugs and positive ids. */
  ghost predicate StaysPlain(db: Pages, ops: seq<Op>)
    decreases |ops|
  {
    PlainStore(db) && (ops == [] || StaysPlain(StoreAfter(db, ops[0]), ops[1..]))
  }

  /** A run over such stores in which every slug scan covers the page it settles on. */
  ghost predicate PlainRun(db: Pages, ops: seq<Op>)
  {
    StaysPlain(db, ops) && CanRun(EMPTY, db, ops) && CoveredRun(EMPTY, db, ops)
  }

  // ---------- What keeps a page within reach of the scan ----------

  /** A page id in decimal. */
  ghost predicate IsPageNumber(slug: string)
  {
    exists n :: n > 0 && slug == FormatInt(n)
  }

  ghost predicate IsKeyOf(db: Pages, id: int, k: string)
  {
    id in db && (FiledBySlug(k, db[id]) || FiledByID(k, db[id]))
  }

  /** The reverse index lists only keys of the page's current row. */
  ghost predicate ListsOwnKeys(c: Indexes, db: Pages)
  {
    forall id, k :: k in KeysOf(c, id) ==> IsKeyOf(db, id, k)
  }

  ghost predicate HasSlugEntry(c: Indexes, id: int)
  {
    exists k :: k in c.bySlug && c.bySlug[k].id == id
  }

  /** A page cached by id is cached by slug too, unless its slug is a page number. */
  ghost predicate Paired(c: Indexes)
  {
    forall k :: k in c.byID && !IsPageNumber(c.byID[k].slug) ==> HasSlugEntry(c, c.byID[k].id)
  }

  ghost predicate InReach(c: Indexes, db: Pages)
  {
    Coherent(c, db) && PlainStore(db) && ListsOwnKeys(c, db) && Paired(c)
  }

  /** Two pages share a key only when one's slug is the other's id. */
  lemma SharedKey(db: Pages, id: int, other: int, k: string)
    requires PlainStore(db) && id in db && FiledBySlug(k, db[id]) && IsKeyOf(db, other, k)
    ensures id == other || IsPageNumber(db[id].slug)
  {
    var p, q := db[id], db[other];
    var role :| Free(role, ':') && Free(p.languageCode, ':') && k == PageKey(Context(p.languageCode, role), p.slug);
    var ctx := Context(p.languageCode, role);
    if FiledBySlug(k, q) {
      var r :| Free(r, ':') && Free(q.languageCode, ':') && k == PageKey(Context(q.languageCode, r), q.slug);
      PageKeyInjective(ctx, Context(q.languageCode, r), p.slug, q.slug);
    } else {
      var d :| ColonFree(d) && k == PageIDKey(d, q.id);
      PageKeyInjective(ctx, d, p.slug, FormatInt(q.id));
    }
  }

  /**
   `InvalidatePage` leaves the entries of all other pages, but for those whose keys it shares:
   the slug entries of a page whose slug is its number, and the id entries of the page whose
   number is its slug.
   */
  lemma InvalidatePageKeepsOthers(c: Indexes, db: Pages, id: int, k: string)
    requires InReach(c, db)
    ensures k in c.bySlug && c.bySlug[k].id != id && c.bySlug[k].slug != FormatInt(id) ==>
              k in WithoutPage(c, id).bySlug && WithoutPage(c, id).bySlug[k] == c.bySlug[k]
    ensures k in c.byID && c.byID[k].id != id && !(id in db && db[id].slug == FormatInt(c.byID[k].id)) ==>
              k in WithoutPage(c, id).byID && WithoutPage(c, id).byID[k] == c.byID[k]
  {
    if k in KeysOf(c, id) {
      assert IsKeyOf(db, id, k);
      if k in c.bySlug { SlugKeyIsShared(c, db, id, k); }
      if k in c.byID { IDKeyIsShared(c, db, id, k); }
    }
  }

  lemma SlugKeyIsShared(c: Indexes, db: Pages, id: int, k: string)
    requires InReach(c, db) && k in c.bySlug && IsKeyOf(db, id, k)
    ensures c.bySlug[k].id == id || c.bySlug[k].slug == FormatInt(id)
  {
    var ctx := KeyIsLookedUp(c, k);
    assert Current(db, c.bySlug[k]);
    if FiledBySlug(k, db[id]) {
      var r :| Free(r, ':') && Free(db[id].languageCode, ':') && k == PageKey(Context(db[id].languageCode, r), db[id].slug);
      PageKeyInjective(ctx, Context(db[id].languageCode, r), c.bySlug[k].slug, db[id].slug);
    } else {
      var d :| ColonFree(d) && k == PageIDKey(d, db[id].id);
      PageKeyInjective(ctx, d, c.bySlug[k].slug, FormatInt(db[id].id));
    }
  }

  lemma IDKeyIsShared(c: Indexes, db: Pages, id: int, k: string)
    requires InReach(c, db) && k in c.byID && IsKeyOf(db, id, k)
    ensures c.byID[k].id == id || db[id].slug == FormatInt(c.byID[k].id)
  {
    assert FiledByID(k, c.byID[k]);
    var ctx :| ColonFree(ctx) && k == PageIDKey(ctx, c.byID[k].id);
    if FiledBySlug(k, db[id]) {
      var r :| Free(r, ':') && Free(db[id].languageCode, ':') && k == PageKey(Context(db[id].languageCode, r), db[id].slug);
      PageKeyInjective(ctx, Context(db[id].languageCode, r), FormatInt(c.byID[k].id), db[id].slug);
    } else {
      var d :| ColonFree(d) && k == PageIDKey(d, db[id].id);
      PageIDKeyInjective(ctx, d, c.byID[k].id, db[id].id);
    }
  }

  // ---------- Every operation keeps pages within reach ----------

  lemma StoreKeepsOwnKeys(c: Indexes, db: Pages, page: Page, ctx: Context)
    requires Coherent(c, db) && ListsOwnKeys(c, db) && Current(db, page) && ColonFree(ctx)
    ensures ListsOwnKeys(Stored(c, page, ctx), db)
  {
    var c' := Stored(c, page, ctx);
    assert FiledBySlug(SlugKey(page, ctx), page);
    assert FiledByID(PageIDKey(ctx, page.id), page);
    forall id, k | k in KeysOf(c', id) ensures IsKeyOf(db, id, k) {
      if id != page.id || (k != SlugKey(page, ctx) && k != PageIDKey(ctx, page.id)) {
        assert k in KeysOf(c, id);
      }
    }
  }

  lemma StoreKeepsPaired(c: Indexes, db: Pages, page: Page, ctx: Context)
    requires Coherent(c, db) && Paired(c) && Current(db, page) && ColonFree(ctx)
    ensures Paired(Stored(c, page, ctx))
  {
    var c', key := Stored(c, page, ctx), SlugKey(page, ctx);
    assert key in c'.bySlug && c'.bySlug[key].id == page.id;
    forall id | HasSlugEntry(c, id) ensures HasSlugEntry(c', id) {
      var k :| k in c.bySlug && c.bySlug[k].id == id;
      if k == key {
        SlugEntryIsOfItsKey(c, Context(page.languageCode, ctx.role), page.slug);
        assert Current(db, c.bySlug[k]);
      } else {
        assert k in c'.bySlug && c'.bySlug[k].id == id;
      }
    }
    forall k | k in c'.byID && !IsPageNumber(c'.byID[k].slug) ensures HasSlugEntry(c', c'.byID[k].id) {
      if k != PageIDKey(ctx, page.id) { assert k in c.byID && HasSlugEntry(c, c.byID[k].id); }
    }
  }

  lemma StoreKeepsInReach(c: Indexes, db: Pages, page: Page, ctx: Context)
    requires InReach(c, db) && Current(db, page) && ColonFree(ctx)
    ensures InReach(Stored(c, page, ctx), db)
  {
    StoreKeepsCoherent(c, db, page, ctx);
    StoreKeepsOwnKeys(c, db, page, ctx);
    StoreKeepsPaired(c, db, page, ctx);
  }

  lemma {:induction false} PreloadKeepsInReach(c: Indexes, db: Pages, pages: seq<Page>, ctx: Context)
    requires InReach(c, db) && ColonFree(ctx) && forall i :: 0 <= i < |pages| ==> Current(db, pages[i])
    ensures InReach(Preloaded(c, pages, ctx), db)
  {
    if pages != [] {
      var n := |pages| - 1;
      assert Current(db, pages[n]);
      PreloadKeepsInReach(c, db, pages[..n], ctx);
      StoreKeepsInReach(Preloaded(c, pages[..n], ctx), db, pages[n], ctx);
    }
  }

  lemma WithoutPageKeepsPaired(c: Indexes, db: Pages, id: int)
    requires InReach(c, db)
    ensures Paired(WithoutPage(c, id))
  {
    var c' := WithoutPage(c, id);
    forall k | k in c'.byID && !IsPageNumber(c'.byID[k].slug) ensures HasSlugEntry(c', c'.byID[k].id) {
      var p := c.byID[k];
      assert HasSlugEntry(c, p.id) && Current(db, p);
      var s :| s in c.bySlug && c.bySlug[s].id == p.id;
      assert Current(db, c.bySlug[s]) && FiledBySlug(s, p);
      if s in KeysOf(c, id) {
        SharedKey(db, p.id, id, s);
        InvalidatePageClears(c, id);
      }
      assert s in c'.bySlug;
    }
  }

  lemma WriteKeepsOwnKeys(c: Indexes, db: Pages, id: int, row: Option<Page>)
    requires ListsOwnKeys(c, db)
    ensures ListsOwnKeys(WithoutPage(c, id), StoreAfter(db, WritePage(id, row)))
  {
    var c', db' := WithoutPage(c, id), StoreAfter(db, WritePage(id, row));
    forall other, k | k in KeysOf(c', other) ensures IsKeyOf(db', other, k) {
      assert k in KeysOf(c, other) && IsKeyOf(db, other, k);
    }
  }

  lemma DropKeepsOwnKeys(c: Indexes, db: Pages, slug: string, scanned: int)
    requires ListsOwnKeys(c, db)
    ensures ListsOwnKeys(WithoutSlug(c, slug, scanned), db)
  {
    var c' := WithoutSlug(c, slug, scanned);
    forall id, k | k in KeysOf(c', id) ensures IsKeyOf(db, id, k) {
      assert k in KeysOf(c, id);
    }
  }

  lemma DropKeepsPaired(c: Indexes, db: Pages, slug: string, scanned: int)
    requires InReach(c, db) && ScanLeaves(c, slug, scanned)
    ensures Paired(WithoutSlug(c, slug, scanned))
  {
    var c' := WithoutSlug(c, slug, scanned);
    forall k | k in c'.byID && !IsPageNumber(c'.byID[k].slug) ensures HasSlugEntry(c', c'.byID[k].id) {
      var p := c.byID[k];
      assert HasSlugEntry(c, p.id) && Current(db, p);
      var s :| s in c.bySlug && c.bySlug[s].id == p.id;
      if s in SlugMatches(c, slug) {
        MatchIsOfTheTail(c, db, slug, s);
        ScanSettlesOnTheSlug(c, db, slug, scanned);
        assert Current(db, c.bySlug[s]);
        IDMatchIsOfThePage(c, k, scanned);
      }
      assert s in c'.bySlug;
    }
  }

  lemma LookupKeepsInReach(c: Indexes, db: Pages, ctx: Context, row: Option<Page>, c': Indexes)
    requires InReach(c, db) && ColonFree(ctx) && (row.Some? ==> Current(db, row.value))
    requires c' == c || (row.Some? && c' == Stored(c, row.value, ctx))
    ensures InReach(c', db)
  {
    if row.Some? { StoreKeepsInReach(c, db, row.value, ctx); }
  }

  lemma StepKeepsInReach(c: Indexes, db: Pages, op: Op)
    requires InReach(c, db) && Allowed(c, db, op) && CoveredOp(c, op) && PlainStore(StoreAfter(db, op))
    ensures InReach(CacheAfter(c, db, op), StoreAfter(db, op))
  {
    StepIsDirect(c, db, op);
    match op
    case WritePage(id, row) =>
      WriteKeepsOwnKeys(c, db, id, row);
      WithoutPageKeepsPaired(c, db, id);
    case WriteMany(_) =>
    case LookupSlug(ctx, slug) =>
      LookupKeepsInReach(c, db, ctx, BySlug(db, slug, ctx.languageCode), CacheAfter(c, db, op));
    case LookupID(ctx, id) => LookupKeepsInReach(c, db, ctx, ByID(db, id), CacheAfter(c, db, op));
    case Warm(ctx, pages) => PreloadKeepsInReach(c, db, pages, ctx);
    case DropSlug(slug, scanned) =>
      DropKeepsOwnKeys(c, db, slug, scanned);
      DropKeepsPaired(c, db, slug, scanned);
  }

  lemma {:induction false} RunKeepsInReach(c: Indexes, db: Pages, ops: seq<Op>) returns (db': Pages)
    requires InReach(c, db) && StaysPlain(db, ops) && CanRun(c, db, ops) && CoveredRun(c, db, ops)
    ensures InReach(FinalCache(c, db, ops), db')
    decreases |ops|
  {
    if ops == [] {
      db' := db;
    } else {
      StepKeepsInReach(c, db, ops[0]);
      db' := RunKeepsInReach(CacheAfter(c, db, ops[0]), StoreAfter(db, ops[0]), ops[1..]);
    }
  }

  /** After a plain, covered run `InvalidateBySlug` leaves no variant of a slug that is not a page number. */
  lemma OtherSlugsAreCleared(db: Pages, ops: seq<Op>, slug: string, scanned: int)
    requires PlainRun(db, ops) && ScanLeaves(FinalCache(EMPTY, db, ops), slug, scanned) && !IsPageNumber(slug)
    ensures Cleared(WithoutSlug(FinalCache(EMPTY, db, ops), slug, scanned), slug)
  {
    var c := FinalCache(EMPTY, db, ops);
    var db' := RunKeepsInReach(EMPTY, db, ops);
    forall k | k in c.byID && c.byID[k].slug == slug ensures SlugMatches(c, slug) != {} {
      var p := c.byID[k];
      assert HasSlugEntry(c, p.id) && Current(db', p);
      var s :| s in c.bySlug && c.bySlug[s].id == p.id;
      assert Current(db', c.bySlug[s]);
      SlugMatchIsOfThePage(c, s, slug);
    }
    ClearedExactlyWhenMatched(c, db', slug, scanned);
  }

  // ---------- Page numbers ----------

  const VISITOR := NewContext("", "")

  function Namesake(n: int): Page
  {
    Page(n + 1, FormatInt(n), "en", true, "")
  }

  function Numbered(n: int): Page
  {
    Page(n, "b", "en", true, "")
  }

  /** The slug of page `n + 1` is the number of page `n`. */
  function Namesakes(n: int): Pages
  {
    map[n + 1 := Namesake(n), n := Numbered(n)]
  }

  lemma NamesakesArePlain(n: int)
    requires n > 0
    ensures PlainStore(Namesakes(n)) && PlainStore(Namesakes(n) - {n})
  {
    FormatIntFree(n, ':');
    FormatIntFree(n, 'b');
  }

  /** Both pages looked up by id, then page `n` invalidated. */
  function NamesakeCache(n: int): Indexes
  {
    WithoutPage(Stored(Stored(EMPTY, Namesake(n), VISITOR), Numbered(n), VISITOR), n)
  }

  /** The namesake has lost its slug entry to the other page's id key, and keeps its id entry. */
  lemma NamesakeIsHidden(n: int)
    ensures NamesakeCache(n).bySlug == map[]
    ensures PageIDKey(VISITOR, n + 1) in NamesakeCache(n).byID
    ensures NamesakeCache(n).byID[PageIDKey(VISITOR, n + 1)] == Namesake(n)
  {
    var a, b := Namesake(n), Numbered(n);
    var slugKey, idKey := SlugKey(b, VISITOR), PageIDKey(VISITOR, n);
    var c := Stored(Stored(EMPTY, a, VISITOR), b, VISITOR);
    KeysHoldColons(VISITOR, "b");
    KeysHoldColons(VISITOR, FormatInt(n));
    FormatIntFree(n + 1, 'b');
    PageIDKeyInjective(VISITOR, VISITOR, n, n + 1);
    PageKeyInjective(VISITOR, VISITOR, "b", FormatInt(n + 1));
    assert SlugKey(a, VISITOR) == idKey;
    assert KeysOf(c, n) == [slugKey, idKey];
    assert c.bySlug.Keys == {idKey, slugKey};
  }

  /** Unfolds a run by one operation. */
  lemma FinalStep(c: Indexes, db: Pages, op: Op, ops: seq<Op>)
    ensures FinalCache(c, db, [op] + ops) == FinalCache(CacheAfter(c, db, op), StoreAfter(db, op), ops)
    ensures StaysPlain(db, [op] + ops) <==> PlainStore(db) && StaysPlain(StoreAfter(db, op), ops)
  {
    assert ([op] + ops)[1..] == ops;
  }

  lemma ReachStep(c: Indexes, db: Pages, op: Op, ops: seq<Op>)
    requires PlainStore(db) && Allowed(c, db, op)
    requires CanRun(CacheAfter(c, db, op), StoreAfter(db, op), ops) && StaysPlain(StoreAfter(db, op), ops)
    ensures CanRun(c, db, [op] + ops) && StaysPlain(db, [op] + ops)
    ensures FinalCache(c, db, [op] + ops) == FinalCache(CacheAfter(c, db, op), StoreAfter(db, op), ops)
  {
    RunStep(c, db, op, ops);
    FinalStep(c, db, op, ops);
  }

  lemma PlainStep(c: Indexes, db: Pages, op: Op, ops: seq<Op>)
    requires PlainStore(db) && Allowed(c, db, op) && !op.DropSlug?
    requires var (c', db') := (CacheAfter(c, db, op), StoreAfter(db, op));
             CanRun(c', db', ops) && CoveredRun(c', db', ops) && StaysPlain(db', ops)
    ensures CanRun(c, db, [op] + ops) && CoveredRun(c, db, [op] + ops) && StaysPlain(db, [op] + ops)
    ensures FinalCache(c, db, [op] + ops) == FinalCache(CacheAfter(c, db, op), StoreAfter(db, op), ops)
  {
    RunStep(c, db, op, ops);
    ReachStep(c, db, op, ops);
  }

  lemma NamesakeLookups(n: int)
    requires n > 0
    ensures var db, c := Namesakes(n), Stored(EMPTY, Namesake(n), VISITOR);
            && CacheAfter(EMPTY, db, LookupID(VISITOR, n + 1)) == c
            && CacheAfter(c, db, LookupID(VISITOR, n)) == Stored(c, Numbered(n), VISITOR)
  {
    PageIDKeyInjective(VISITOR, VISITOR, n, n + 1);
  }

  lemma NamesakeRun(n: int) returns (ops: seq<Op>)
    requires n > 0
    ensures PlainRun(Namesakes(n), ops) && FinalCache(EMPTY, Namesakes(n), ops) == NamesakeCache(n)
  {
    var db := Namesakes(n);
    var c := Stored(EMPTY, Namesake(n), VISITOR);
    var last: seq<Op> := [WritePage(n, None)] + [];
    var more := [LookupID(VISITOR, n)] + last;
    NamesakesArePlain(n);
    NamesakeLookups(n);
    PlainStep(Stored(c, Numbered(n), VISITOR), db, WritePage(n, None), []);
    PlainStep(c, db, LookupID(VISITOR, n), last);
    PlainStep(EMPTY, db, LookupID(VISITOR, n + 1), more);
    ops := [LookupID(VISITOR, n + 1)] + more;
  }

  lemma PageNumberIsNotCleared(n: int) returns (db: Pages, ops: seq<Op>)
    requires n > 0
    ensures PlainRun(db, ops)
    ensures var c := FinalCache(EMPTY, db, ops);
            ScanLeaves(c, FormatInt(n), 0) && !Cleared(WithoutSlug(c, FormatInt(n), 0), FormatInt(n))
  {
    db := Namesakes(n);
    ops := NamesakeRun(n);
    NamesakeIsHidden(n);
    assert SlugMatches(NamesakeCache(n), FormatInt(n)) == {};
  }

  /** `InvalidateBySlug` clears its slug after every plain, covered run exactly when the slug is no page number. */
  lemma SlugIsClearedExactlyWhenNoPageNumber(slug: string)
    ensures (forall db, ops, scanned ::
               PlainRun(db, ops) && ScanLeaves(FinalCache(EMPTY, db, ops), slug, scanned)
               ==> Cleared(WithoutSlug(FinalCache(EMPTY, db, ops), slug, scanned), slug))
            <==> !IsPageNumber(slug)
  {
    if IsPageNumber(slug) {
      var n :| n > 0 && slug == FormatInt(n);
      var db, ops := PageNumberIsNotCleared(n);
    } else {
      forall db, ops, scanned | PlainRun(db, ops) && ScanLeaves(FinalCache(EMPTY, db, ops), slug, scanned)
        ensures Cleared(WithoutSlug(FinalCache(EMPTY, db, ops), slug, scanned), slug)
      {
        OtherSlugsAreCleared(db, ops, slug, scanned);
      }
    }
  }

  // ---------- After a scan that missed a variant ----------

  const EDITOR := NewContext("en", "editor")
  const READER := NewContext("en", "public")

  /** Page 1 before and after it gives up its slug, and page 2, which takes the slug over. */
  function Owner(slug: string): Page
  {
    Page(1, slug, "en", true, "")
  }

  function Renamed(slug: string): Page
  {
    Page(1, slug + "x", "en", true, "")
  }

  function Heir(slug: string): Page
  {
    Page(2, slug, "en", true, "")
  }

  lemma HandoverIsPlain(slug: string)
    requires Free(slug, ':')
    ensures PlainStore(map[1 := Owner(slug)]) && PlainStore(map[1 := Renamed(slug)])
    ensures PlainStore(map[1 := Renamed(slug), 2 := Heir(slug)])
  {
    assert |Renamed(slug).slug| == |slug| + 1;
  }

  function TwoReaders(slug: string): Indexes
  {
    Stored(Stored(EMPTY, Owner(slug), EDITOR), Owner(slug), READER)
  }

  function StrandedCache(slug: string): Indexes
  {
    Indexes(map[PageKey(EDITOR, slug) := Owner(slug)], map[], map[])
  }

  lemma SpansReader(slug: string)
    ensures HasSuffix(PageKey(READER, slug), ":" + ("public:" + slug))
    ensures !HasSuffix(PageKey(EDITOR, slug), ":" + ("public:" + slug))
  {
    var t := ":" + ("public:" + slug);
    assert PageKey(READER, slug) == "en" + t && PageKey(READER, slug)[2..] == t;
    assert PageKey(EDITOR, slug) == "en" + (":" + ("editor:" + slug));
    assert PageKey(EDITOR, slug)[2..][1] == 'e' && t[1] == 'p';
  }

  lemma ScanStrandsEditor(slug: string)
    ensures ScanLeaves(TwoReaders(slug), "public:" + slug, 1)
    ensures WithoutSlug(TwoReaders(slug), "public:" + slug, 1) == StrandedCache(slug)
  {
    var c, t := TwoReaders(slug), "public:" + slug;
    SpansReader(slug);
    IDSuffixOfKey(EDITOR, 1, 1);
    IDSuffixOfKey(READER, 1, 1);
    assert c.bySlug.Keys == {PageKey(EDITOR, slug), PageKey(READER, slug)};
    assert SlugMatches(c, t) == {PageKey(READER, slug)};
    assert c.byID.Keys == {PageIDKey(EDITOR, 1), PageIDKey(READER, 1)};
    assert c.keysByPageID.Keys == {1};
  }

  /** The editor's stale entry makes the scan settle on page 1, and page 2 keeps its id entry. */
  lemma StaleEntryMisleads(slug: string)
    ensures var c := Stored(StrandedCache(slug), Heir(slug), READER);
            ScanLeaves(c, slug, 1) && !Cleared(WithoutSlug(c, slug, 1), slug)
  {
    var c := Stored(StrandedCache(slug), Heir(slug), READER);
    SpansReader(slug);
    assert PageKey(EDITOR, slug) != PageKey(READER, slug);
    assert FiledBySlug(PageKey(EDITOR, slug), Owner(slug));
    StoreKeepsFiled(StrandedCache(slug), Heir(slug), READER);
    OwnSlugMatches(c, slug, PageKey(EDITOR, slug));
    assert c.byID[PageIDKey(READER, 2)] == Heir(slug);
    ClearedExactlyWhenSettled(c, slug, 1);
  }

  lemma LookupsStoreBoth(slug: string)
    ensures var db := map[1 := Owner(slug)];
            CacheAfter(CacheAfter(EMPTY, db, LookupID(EDITOR, 1)), db, LookupID(READER, 1)) == TwoReaders(slug)
  {
    PageIDKeyInjective(EDITOR, READER, 1, 1);
  }

  /** From the stranded cache: page 1 is renamed, page 2 takes the slug and is looked up. */
  lemma HandoverRun(slug: string) returns (ops: seq<Op>)
    requires Free(slug, ':')
    ensures var c, db := StrandedCache(slug), map[1 := Owner(slug)];
            && CanRun(c, db, ops) && StaysPlain(db, ops)
            && FinalCache(c, db, ops) == Stored(c, Heir(slug), READER)
  {
    var c, db1, db2 := StrandedCache(slug), map[1 := Renamed(slug)], map[1 := Renamed(slug), 2 := Heir(slug)];
    var db := map[1 := Owner(slug)];
    var rename, create, ask := WritePage(1, Some(Renamed(slug))), WritePage(2, Some(Heir(slug))), LookupID(READER, 2);
    HandoverIsPlain(slug);
    assert WithoutPage(c, 1) == c && WithoutPage(c, 2) == c;
    assert StoreAfter(db, rename) == db1 && StoreAfter(db1, create) == db2;
    ReachStep(c, db2, ask, []);
    ReachStep(c, db1, create, [ask] + []);
    ReachStep(c, db, rename, [create] + ([ask] + []));
    ops := [rename] + ([create] + ([ask] + []));
  }

  /** From the cache of both readers: a scan strands the editor's entry before the handover. */
  lemma StrandThenHandOver(slug: string) returns (ops: seq<Op>)
    requires Free(slug, ':')
    ensures var c, db := TwoReaders(slug), map[1 := Owner(slug)];
            && CanRun(c, db, ops) && StaysPlain(db, ops)
            && FinalCache(c, db, ops) == Stored(StrandedCache(slug), Heir(slug), READER)
  {
    var last := HandoverRun(slug);
    HandoverIsPlain(slug);
    ScanStrandsEditor(slug);
    ReachStep(TwoReaders(slug), map[1 := Owner(slug)], DropSlug("public:" + slug, 1), last);
    ops := [DropSlug("public:" + slug, 1)] + last;
  }

  /**
   Why earlier scans must cover their pages: otherwise, for every slug, a run leaves a stale
   entry under it, on which `InvalidateBySlug` settles instead of the page that has the slug.
   */
  lemma UncoveredRunMisleads(slug: string) returns (db: Pages, ops: seq<Op>)
    requires Free(slug, ':')
    ensures StaysPlain(db, ops) && CanRun(EMPTY, db, ops)
    ensures var c := FinalCache(EMPTY, db, ops);
            ScanLeaves(c, slug, 1) && !Cleared(WithoutSlug(c, slug, 1), slug)
  {
    db := map[1 := Owner(slug)];
    var last := StrandThenHandOver(slug);
    HandoverIsPlain(slug);
    LookupsStoreBoth(slug);
    var c := CacheAfter(EMPTY, db, LookupID(EDITOR, 1));
    ReachStep(c, db, LookupID(READER, 1), last);
    ReachStep(EMPTY, db, LookupID(EDITOR, 1), [LookupID(READER, 1)] + last);
    ops := [LookupID(EDITOR, 1)] + ([LookupID(READER, 1)] + last);
    StaleEntryMisleads(slug);
  }
}
