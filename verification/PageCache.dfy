/**
 `PageCache` of `internal/cache/pages.go`: two key-indexed maps and the reverse index that
 invalidates them.
 */
module PageCaching {
  import opened Common
  import opened Text
  import opened CacheContext

  /** A row of the `pages` table. Cached rows are never changed in place. */
  datatype Page = Page(id: int, slug: string, languageCode: string, published: bool, body: string)

  // ---------- The store and its queries ----------

  type Pages = map<int, Page>

  /** Ids are keys, slugs are unique over the site, language codes hold no colon. */
  ghost predicate ValidStore(db: Pages)
  {
    && (forall id :: id in db ==> db[id].id == id && Free(db[id].languageCode, ':'))
    && (forall i, j :: i in db && j in db && db[i].slug == db[j].slug ==> i == j)
  }

  ghost predicate Current(db: Pages, p: Page)
  {
    p.id in db && db[p.id] == p && p.published
  }

  /** `GetPublishedPageByID`. */
  function ByID(db: Pages, id: int): Option<Page>
  {
    if id in db && db[id].published then Some(db[id]) else None
  }

  /** `GetPublishedPageBySlugAndLanguage`. */
  ghost function BySlug(db: Pages, slug: string, lang: string): Option<Page>
  {
    if exists id :: id in db && db[id].slug == slug && db[id].languageCode == lang && db[id].published then
      var id :| id in db && db[id].slug == slug && db[id].languageCode == lang && db[id].published;
      Some(db[id])
    else None
  }

  lemma BySlugFinds(db: Pages, p: Page)
    requires ValidStore(db) && Current(db, p)
    ensures BySlug(db, p.slug, p.languageCode) == Some(p)
  {
  }

  // ---------- The three maps, as a value ----------

  datatype Indexes = Indexes(bySlug: map<string, Page>, byID: map<string, Page>, keysByPageID: map<int, seq<string>>)

  const EMPTY := Indexes(map[], map[], map[])

  function KeysOf(c: Indexes, id: int): seq<string>
  {
    if id in c.keysByPageID then c.keysByPageID[id] else []
  }

  function SlugKey(page: Page, ctx: Context): string
  {
    PageKey(Context(page.languageCode, ctx.role), page.slug)
  }

  function Stored(c: Indexes, page: Page, ctx: Context): Indexes
  {
    var slugKey, idKey := SlugKey(page, ctx), PageIDKey(ctx, page.id);
    Indexes(c.bySlug[slugKey := page], c.byID[idKey := page],
            c.keysByPageID[page.id := KeysOf(c, page.id) + [slugKey, idKey]])
  }

  function WithoutPage(c: Indexes, id: int): Indexes
  {
    var dead := set k | k in KeysOf(c, id) && ':' in k;
    Indexes(c.bySlug - dead, c.byID - dead, c.keysByPageID - {id})
  }

  function SlugMatches(c: Indexes, slug: string): set<string>
  {
    set k | k in c.bySlug && HasSuffix(k, ":" + slug)
  }

  /** `pageID` after the scan: that of whichever matching entry came last, or zero. */
  ghost predicate ScanLeaves(c: Indexes, slug: string, pageID: int)
  {
    if SlugMatches(c, slug) == {} then pageID == 0
    else exists k :: k in SlugMatches(c, slug) && c.bySlug[k].id == pageID
  }

  function WithoutSlug(c: Indexes, slug: string, pageID: int): Indexes
  {
    var slugsCleared := c.bySlug - SlugMatches(c, slug);
    if pageID > 0 then
      Indexes(slugsCleared, c.byID - (set k | k in c.byID && HasSuffix(k, ":" + FormatInt(pageID))),
              c.keysByPageID - {pageID})
    else Indexes(slugsCleared, c.byID, c.keysByPageID)
  }

  // ---------- Invariants of the maps ----------

  /** Every cached entry is listed under its page, by a key that holds a colon. */
  ghost predicate Listed(c: Indexes)
  {
    && (forall k :: k in c.bySlug ==> k in KeysOf(c, c.bySlug[k].id) && ':' in k)
    && (forall k :: k in c.byID ==> k in KeysOf(c, c.byID[k].id) && ':' in k)
  }

  /** A slug key names its page's own language and slug. */
  ghost predicate FiledBySlug(k: string, p: Page)
  {
    exists role :: Free(role, ':') && Free(p.languageCode, ':') && k == PageKey(Context(p.languageCode, role), p.slug)
  }

  ghost predicate FiledByID(k: string, p: Page)
  {
    exists ctx :: ColonFree(ctx) && k == PageIDKey(ctx, p.id)
  }

  ghost predicate Filed(c: Indexes)
  {
    && (forall k :: k in c.bySlug ==> FiledBySlug(k, c.bySlug[k]))
    && (forall k :: k in c.byID ==> FiledByID(k, c.byID[k]))
  }

  /** Every cached page is the store's published row. */
  ghost predicate Agrees(c: Indexes, db: Pages)
  {
    && (forall k :: k in c.bySlug ==> Current(db, c.bySlug[k]))
    && (forall k :: k in c.byID ==> Current(db, c.byID[k]))
  }

  /** `c'` holds no entry that `c` does not hold. */
  ghost predicate Within(c': Indexes, c: Indexes)
  {
    && (forall k :: k in c'.bySlug ==> k in c.bySlug && c'.bySlug[k] == c.bySlug[k])
    && (forall k :: k in c'.byID ==> k in c.byID && c'.byID[k] == c.byID[k])
  }

  /** No entry of page `id` is left. */
  ghost predicate Gone(c: Indexes, id: int)
  {
    && (forall k :: k in c.bySlug ==> c.bySlug[k].id != id)
    && (forall k :: k in c.byID ==> c.byID[k].id != id)
  }

  /** Language isolation: an entry under `lang:role:slug` has that language and that slug. */
  lemma SlugEntryIsOfItsKey(c: Indexes, ctx: Context, slug: string)
    requires Filed(c) && ColonFree(ctx) && PageKey(ctx, slug) in c.bySlug
    ensures var p := c.bySlug[PageKey(ctx, slug)]; p.languageCode == ctx.languageCode && p.slug == slug
  {
    var p := c.bySlug[PageKey(ctx, slug)];
    assert FiledBySlug(PageKey(ctx, slug), p);
    var role :| Free(role, ':') && Free(p.languageCode, ':')
                && PageKey(ctx, slug) == PageKey(Context(p.languageCode, role), p.slug);
    PageKeyInjective(ctx, Context(p.languageCode, role), slug, p.slug);
  }

  lemma IDEntryIsOfItsKey(c: Indexes, ctx: Context, id: int)
    requires Filed(c) && ColonFree(ctx) && PageIDKey(ctx, id) in c.byID
    ensures c.byID[PageIDKey(ctx, id)].id == id
  {
    var p := c.byID[PageIDKey(ctx, id)];
    assert FiledByID(PageIDKey(ctx, id), p);
    var other :| ColonFree(other) && PageIDKey(ctx, id) == PageIDKey(other, p.id);
    PageIDKeyInjective(ctx, other, id, p.id);
  }

  // ---------- What the operations keep ----------

  lemma KeysHoldColons(ctx: Context, s: string)
    ensures ':' in PageKey(ctx, s)
  {
    assert PageKey(ctx, s)[|ctx.languageCode|] == ':';
  }

  lemma StoreKeepsListed(c: Indexes, page: Page, ctx: Context)
    requires Listed(c)
    ensures Listed(Stored(c, page, ctx))
  {
    KeysHoldColons(Context(page.languageCode, ctx.role), page.slug);
    KeysHoldColons(ctx, FormatInt(page.id));
    var c' := Stored(c, page, ctx);
    var added := [SlugKey(page, ctx), PageIDKey(ctx, page.id)];
    assert KeysOf(c', page.id) == KeysOf(c, page.id) + added;
    assert added[0] in KeysOf(c', page.id) && added[1] in KeysOf(c', page.id);
  }

  lemma StoreKeepsFiled(c: Indexes, page: Page, ctx: Context)
    requires Filed(c) && ColonFree(ctx) && Free(page.languageCode, ':')
    ensures Filed(Stored(c, page, ctx))
  {
    assert FiledBySlug(SlugKey(page, ctx), page);
    assert FiledByID(PageIDKey(ctx, page.id), page);
  }

  /** A stored page is found by its own language and slug, and by its id, for that role. */
  lemma StoredPageIsFound(c: Indexes, page: Page, ctx: Context, row: Option<Page>)
    requires page.languageCode != ""
    ensures var c' := Stored(c, page, ctx);
            && GetBySlugSpec(c', Context(page.languageCode, ctx.role), page.slug, row) == (c', Found(page))
            && GetByIDSpec(c', ctx, page.id, row) == (c', Found(page))
  {
  }

  /** Storing a page replaces what its two keys held and nothing else. */
  lemma StoreKeepsOtherEntries(c: Indexes, page: Page, ctx: Context, k: string)
    ensures var c' := Stored(c, page, ctx);
            && (k != SlugKey(page, ctx) ==> (k in c'.bySlug <==> k in c.bySlug) && (k in c.bySlug ==> c'.bySlug[k] == c.bySlug[k]))
            && (k != PageIDKey(ctx, page.id) ==> (k in c'.byID <==> k in c.byID) && (k in c.byID ==> c'.byID[k] == c.byID[k]))
  {
  }

  /** What a lookup found is a hit for the next one, whatever the database says by then. */
  lemma LookupIsRemembered(c: Indexes, ctx: Context, slug: string, id: int, row: Option<Page>, again: Option<Page>)
    ensures (row.Some? ==> row.value.languageCode == ctx.languageCode && row.value.slug == slug) ==>
              var (c', r) := GetBySlugSpec(c, ctx, slug, row);
              if r.Found? then GetBySlugSpec(c', ctx, slug, again) == (c', r) else c' == c
    ensures (row.Some? ==> row.value.id == id) ==>
              var (c', r) := GetByIDSpec(c, ctx, id, row);
              if r.Found? then GetByIDSpec(c', ctx, id, again) == (c', r) else c' == c
  {
  }

  /** Some page of the context's language has this slug key. */
  ghost predicate WarmsSlug(pages: seq<Page>, ctx: Context, k: string)
  {
    exists i :: 0 <= i < |pages| && pages[i].languageCode == ctx.languageCode && k == PageKey(ctx, pages[i].slug)
  }

  ghost predicate WarmsID(pages: seq<Page>, ctx: Context, k: string)
  {
    exists i :: 0 <= i < |pages| && pages[i].languageCode == ctx.languageCode && k == PageIDKey(ctx, pages[i].id)
  }

  /** After `Preload` the hits are those there were, and the listed pages of the context's language. */
  lemma {:induction false} PreloadedKeys(c: Indexes, pages: seq<Page>, ctx: Context, k: string)
    ensures k in Preloaded(c, pages, ctx).bySlug <==> k in c.bySlug || WarmsSlug(pages, ctx, k)
    ensures k in Preloaded(c, pages, ctx).byID <==> k in c.byID || WarmsID(pages, ctx, k)
  {
    if pages != [] {
      var n := |pages| - 1;
      var before := pages[..n];
      PreloadedKeys(c, before, ctx, k);
      WarmsOneMore(pages, ctx, k);
    }
  }

  lemma WarmsOneMore(pages: seq<Page>, ctx: Context, k: string)
    requires pages != []
    ensures var n := |pages| - 1;
            var warm := pages[n].languageCode == ctx.languageCode;
            && (WarmsSlug(pages, ctx, k) <==> WarmsSlug(pages[..n], ctx, k) || (warm && k == PageKey(ctx, pages[n].slug)))
            && (WarmsID(pages, ctx, k) <==> WarmsID(pages[..n], ctx, k) || (warm && k == PageIDKey(ctx, pages[n].id)))
  {
    var before := pages[..|pages| - 1];
    assert forall i :: 0 <= i < |before| ==> before[i] == pages[i];
  }

  /** `InvalidatePage` keeps the reverse index complete and leaves no variant of the page. */
  lemma InvalidatePageClears(c: Indexes, id: int)
    requires Listed(c)
    ensures var c' := WithoutPage(c, id);
            Listed(c') && Gone(c', id)
  {
    var c' := WithoutPage(c, id);
    assert forall k :: k in c'.bySlug ==> k in c.bySlug && k in KeysOf(c, c.bySlug[k].id) && ':' in k;
    assert forall k :: k in c'.byID ==> k in c.byID && k in KeysOf(c, c.byID[k].id) && ':' in k;
  }

  /** Dropping a page's reverse index is harmless once its entries are gone. */
  lemma DropKeepsListed(c: Indexes, c': Indexes, id: int)
    requires Listed(c) && Within(c', c) && Gone(c', id)
    requires forall other :: other != id ==> KeysOf(c', other) == KeysOf(c, other)
    ensures Listed(c')
  {
  }

  lemma WithinKeepsAgreement(c: Indexes, c': Indexes, db: Pages)
    requires Filed(c) && Agrees(c, db) && Within(c', c)
    ensures Filed(c') && Agrees(c', db)
  {
    WithinKeepsFiled(c, c');
    forall k | k in c'.bySlug ensures Current(db, c'.bySlug[k]) {
      assert Current(db, c.bySlug[k]);
    }
    forall k | k in c'.byID ensures Current(db, c'.byID[k]) {
      assert Current(db, c.byID[k]);
    }
  }

  lemma WithinKeepsFiled(c: Indexes, c': Indexes)
    requires Filed(c) && Within(c', c)
    ensures Filed(c')
  {
    forall k | k in c'.bySlug ensures FiledBySlug(k, c'.bySlug[k]) {
      assert FiledBySlug(k, c.bySlug[k]);
    }
    forall k | k in c'.byID ensures FiledByID(k, c'.byID[k]) {
      assert FiledByID(k, c.byID[k]);
    }
  }

  lemma WithoutPageIsWithin(c: Indexes, id: int)
    ensures Within(WithoutPage(c, id), c)
  {
  }

  lemma WithoutSlugIsWithin(c: Indexes, slug: string, pageID: int)
    ensures Within(WithoutSlug(c, slug, pageID), c)
  {
  }

  /** The three invariants, over a valid store. */
  ghost predicate Coherent(c: Indexes, db: Pages)
  {
    ValidStore(db) && Listed(c) && Filed(c) && Agrees(c, db)
  }

  lemma StoreKeepsCoherent(c: Indexes, db: Pages, page: Page, ctx: Context)
    requires Coherent(c, db) && Current(db, page) && ColonFree(ctx)
    ensures Coherent(Stored(c, page, ctx), db)
  {
    StoreKeepsListed(c, page, ctx);
    StoreKeepsFiled(c, page, ctx);
  }

  // ---------- The lookups, as functions of the maps ----------

  datatype Lookup = Found(page: Page) | NoRows | NoLanguage

  /** `row` is what the database answers if it is asked. */
  function GetBySlugSpec(c: Indexes, ctx: Context, slug: string, row: Option<Page>): (Indexes, Lookup)
  {
    var key := PageKey(ctx, slug);
    if ctx.languageCode == "" then (c, NoLanguage)
    else if key in c.bySlug then (c, Found(c.bySlug[key]))
    else if row.None? then (c, NoRows)
    else (Stored(c, row.value, ctx), Found(row.value))
  }

  function GetByIDSpec(c: Indexes, ctx: Context, id: int, row: Option<Page>): (Indexes, Lookup)
  {
    var key := PageIDKey(ctx, id);
    if key in c.byID then (c, Found(c.byID[key]))
    else if row.None? then (c, NoRows)
    else (Stored(c, row.value, ctx), Found(row.value))
  }

  function Preloaded(c: Indexes, pages: seq<Page>, ctx: Context): Indexes
  {
    if pages == [] then c else
      var n := |pages| - 1;
      var before := Preloaded(c, pages[..n], ctx);
      if pages[n].languageCode == ctx.languageCode then Stored(before, pages[n], ctx) else before
  }

  // ---------- The object ----------

  class PageCache {
    var bySlug: map<string, Page>
    var byID: map<string, Page>
    var keysByPageID: map<int, seq<string>>

    ghost function State(): Indexes
      reads this
    {
      Indexes(bySlug, byID, keysByPageID)
    }

    constructor ()
      ensures State() == EMPTY
    {
      bySlug, byID, keysByPageID := map[], map[], map[];
    }

    method GetBySlug(ctx: Context, slug: string, row: Option<Page>) returns (r: Lookup)
      modifies this
      ensures (State(), r) == GetBySlugSpec(old(State()), ctx, slug, row)
    {
      if ctx.languageCode == "" {
        return NoLanguage;
      }
      var key := PageKey(ctx, slug);
      if key in bySlug {
        return Found(bySlug[key]);
      }
      if row.None? {
        return NoRows;
      }
      Store(row.value, ctx);
      return Found(row.value);
    }

    method GetByID(ctx: Context, id: int, row: Option<Page>) returns (r: Lookup)
      modifies this
      ensures (State(), r) == GetByIDSpec(old(State()), ctx, id, row)
    {
      var key := PageIDKey(ctx, id);
      if key in byID {
        return Found(byID[key]);
      }
      if row.None? {
        return NoRows;
      }
      Store(row.value, ctx);
      return Found(row.value);
    }

    method Store(page: Page, ctx: Context)
      modifies this
      ensures State() == Stored(old(State()), page, ctx)
    {
      var slugKey := PageKey(Context(page.languageCode, ctx.role), page.slug);
      var idKey := PageIDKey(ctx, page.id);
      bySlug := bySlug[slugKey := page];
      byID := byID[idKey := page];
      var keys := if page.id in keysByPageID then keysByPageID[page.id] else [];
      keysByPageID := keysByPageID[page.id := keys + [slugKey, idKey]];
    }

    method InvalidatePage(pageID: int)
      modifies this
      ensures State() == WithoutPage(old(State()), pageID)
    {
      var keys := if pageID in keysByPageID then keysByPageID[pageID] else [];
      for i := 0 to |keys|
        invariant bySlug == old(bySlug) - (set k | k in keys[..i] && ':' in k)
        invariant byID == old(byID) - (set k | k in keys[..i] && ':' in k)
        invariant keysByPageID == old(keysByPageID)
      {
        assert keys[..i + 1] == keys[..i] + [keys[i]];
        if ':' in keys[i] {
          bySlug := bySlug - {keys[i]};
          byID := byID - {keys[i]};
        }
      }
      assert keys[..|keys|] == keys;
      keysByPageID := keysByPageID - {pageID};
    }

    /** The scan of `InvalidateBySlug`; map order is arbitrary. */
    method ScanSlugs(slug: string) returns (keysToDelete: set<string>, pageID: int)
      ensures keysToDelete == SlugMatches(State(), slug)
      ensures ScanLeaves(State(), slug, pageID)
    {
      keysToDelete, pageID := {}, 0;
      var suffix := ":" + slug;
      ghost var last := "";
      var remaining := bySlug.Keys;
      while remaining != {}
        invariant remaining <= bySlug.Keys
        invariant forall k :: k in keysToDelete <==> k in bySlug && k !in remaining && HasSuffix(k, suffix)
        invariant if keysToDelete == {} then pageID == 0 else last in keysToDelete && bySlug[last].id == pageID
        decreases |remaining|
      {
        var key :| key in remaining;
        if HasSuffix(key, suffix) {
          keysToDelete := keysToDelete + {key};
          pageID := bySlug[key].id;
          last := key;
        }
        remaining := remaining - {key};
      }
      assert keysToDelete == SlugMatches(State(), slug);
    }

    /** Deletes the id entries with the given suffix while ranging over them. */
    method DropIDs(idSuffix: string)
      modifies this`byID
      ensures byID == old(byID) - (set k | k in old(byID) && HasSuffix(k, idSuffix))
    {
      var remaining := byID.Keys;
      while remaining != {}
        invariant remaining <= old(byID).Keys
        invariant byID == old(byID) - (set k | k in old(byID) && k !in remaining && HasSuffix(k, idSuffix))
        decreases |remaining|
      {
        var key :| key in remaining;
        if HasSuffix(key, idSuffix) {
          byID := byID - {key};
        }
        remaining := remaining - {key};
      }
    }

    /** `scanned` is the page id the scan settled on. */
    method InvalidateBySlug(slug: string) returns (ghost scanned: int)
      modifies this
      ensures ScanLeaves(old(State()), slug, scanned)
      ensures State() == WithoutSlug(old(State()), slug, scanned)
    {
      var keysToDelete, pageID := ScanSlugs(slug);
      scanned := pageID;
      bySlug := bySlug - keysToDelete;
      if pageID > 0 {
        DropIDs(":" + FormatInt(pageID));
        keysByPageID := keysByPageID - {pageID};
      }
    }

    method Invalidate()
      modifies this
      ensures State() == EMPTY
    {
      bySlug, byID, keysByPageID := map[], map[], map[];
    }

    /** `pages` is what `ListPublishedPages` answers. */
    method Preload(ctx: Context, pages: seq<Page>)
      modifies this
      ensures State() == Preloaded(old(State()), pages, ctx)
    {
      for i := 0 to |pages|
        invariant State() == Preloaded(old(State()), pages[..i], ctx)
      {
        assert pages[..i + 1][..i] == pages[..i];
        if pages[i].languageCode != ctx.languageCode {
          continue;
        }
        Store(pages[i], ctx);
      }
      assert pages[..|pages|] == pages;
    }
  }
}
