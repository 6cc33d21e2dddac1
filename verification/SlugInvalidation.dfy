/**
 What `InvalidateBySlug` of `internal/cache/pages.go` clears, and exactly when: it finds its
 page by key suffix, so both a colon and a decimal number in a slug can mislead it.
 */
module SlugInvalidation {
  import opened Text
  import opened CacheContext
  import opened PageCaching

  // ---------- The reverse index ----------

  /** Every slug entry of the page the scan settled on matches the slug. */
  ghost predicate Covers(c: Indexes, slug: string, pageID: int)
  {
    pageID > 0 ==> forall k :: k in c.bySlug && c.bySlug[k].id == pageID ==> HasSuffix(k, ":" + slug)
  }

  /** The id suffix picks exactly the entries of that page. */
  lemma IDMatchIsOfThePage(c: Indexes, k: string, id: int)
    requires Filed(c) && k in c.byID
    ensures HasSuffix(k, ":" + FormatInt(id)) <==> c.byID[k].id == id
  {
    assert FiledByID(k, c.byID[k]);
    var ctx :| ColonFree(ctx) && k == PageIDKey(ctx, c.byID[k].id);
    IDSuffixOfKey(ctx, c.byID[k].id, id);
  }

  lemma CoveredPageIsGone(c: Indexes, slug: string, pageID: int)
    requires Filed(c) && pageID > 0 && Covers(c, slug, pageID)
    ensures Gone(WithoutSlug(c, slug, pageID), pageID)
  {
    forall k | k in WithoutSlug(c, slug, pageID).byID ensures c.byID[k].id != pageID {
      IDMatchIsOfThePage(c, k, pageID);
    }
  }

  lemma WithoutSlugKeepsListed(c: Indexes, slug: string, pageID: int)
    requires Listed(c) && (pageID > 0 ==> Gone(WithoutSlug(c, slug, pageID), pageID))
    ensures Listed(WithoutSlug(c, slug, pageID))
  {
    WithoutSlugIsWithin(c, slug, pageID);
    if pageID > 0 {
      DropKeepsListed(c, WithoutSlug(c, slug, pageID), pageID);
    }
  }

  lemma CoveredKeepsListed(c: Indexes, slug: string, pageID: int)
    requires Listed(c) && Filed(c) && Covers(c, slug, pageID)
    ensures Listed(WithoutSlug(c, slug, pageID))
  {
    if pageID > 0 {
      CoveredPageIsGone(c, slug, pageID);
    }
    WithoutSlugKeepsListed(c, slug, pageID);
  }

  /** A variant that the scan missed keeps its entry and loses its listing. */
  lemma MissedVariant(c: Indexes, slug: string, pageID: int) returns (k: string)
    requires !Covers(c, slug, pageID)
    ensures k in c.bySlug && c.bySlug[k].id == pageID
    ensures var c' := WithoutSlug(c, slug, pageID);
            k in c'.bySlug && c'.bySlug[k] == c.bySlug[k] && KeysOf(c', pageID) == []
  {
    k :| k in c.bySlug && c.bySlug[k].id == pageID && !HasSuffix(k, ":" + slug);
    assert k !in SlugMatches(c, slug);
  }

  /**
   The reverse index stays complete exactly when the scan covered the page it settled on;
   otherwise an entry is left that no later `InvalidatePage` removes.
   */
  lemma ListedExactlyWhenCovered(c: Indexes, slug: string, pageID: int)
    requires Listed(c) && Filed(c)
    ensures Listed(WithoutSlug(c, slug, pageID)) <==> Covers(c, slug, pageID)
  {
    if Covers(c, slug, pageID) {
      CoveredKeepsListed(c, slug, pageID);
    } else {
      var k := MissedVariant(c, slug, pageID);
    }
  }

  /** Entries of one page match a colon-free slug all together or not at all. */
  lemma SlugMatchIsOfThePage(c: Indexes, k: string, slug: string)
    requires Filed(c) && k in c.bySlug && Free(slug, ':')
    ensures k in SlugMatches(c, slug) <==> HasSuffix(":" + c.bySlug[k].slug, ":" + slug)
  {
    var p := c.bySlug[k];
    assert FiledBySlug(k, p);
    var role :| Free(role, ':') && Free(p.languageCode, ':') && k == PageKey(Context(p.languageCode, role), p.slug);
    SlugSuffixOfKey(Context(p.languageCode, role), p.slug, slug);
  }

  /** All cached variants of the page carry one slug. */
  ghost predicate HasOneSlug(c: Indexes, pageID: int)
  {
    forall k, m :: k in c.bySlug && m in c.bySlug && c.bySlug[k].id == c.bySlug[m].id == pageID
                   ==> c.bySlug[k].slug == c.bySlug[m].slug
  }

  lemma OneSlugIsCovered(c: Indexes, slug: string, pageID: int)
    requires Filed(c) && Free(slug, ':') && ScanLeaves(c, slug, pageID) && HasOneSlug(c, pageID)
    ensures Covers(c, slug, pageID)
  {
    if pageID > 0 {
      var m :| m in SlugMatches(c, slug) && c.bySlug[m].id == pageID;
      SlugMatchIsOfThePage(c, m, slug);
      forall k | k in c.bySlug && c.bySlug[k].id == pageID ensures HasSuffix(k, ":" + slug) {
        SlugMatchIsOfThePage(c, k, slug);
      }
    }
  }

  lemma ColonFreeSlugCovers(c: Indexes, db: Pages, slug: string, pageID: int)
    requires Filed(c) && Agrees(c, db) && Free(slug, ':') && ScanLeaves(c, slug, pageID)
    ensures Covers(c, slug, pageID)
  {
    assert forall k :: k in c.bySlug ==> Current(db, c.bySlug[k]);
    OneSlugIsCovered(c, slug, pageID);
  }

  /** For a colon-free slug the page the scan settles on loses every entry, and the rest stays listed. */
  lemma InvalidateBySlugClears(c: Indexes, db: Pages, slug: string, pageID: int)
    requires Listed(c) && Filed(c) && Agrees(c, db) && Free(slug, ':') && ScanLeaves(c, slug, pageID)
    ensures Listed(WithoutSlug(c, slug, pageID))
    ensures pageID > 0 ==> Gone(WithoutSlug(c, slug, pageID), pageID)
  {
    ColonFreeSlugCovers(c, db, slug, pageID);
    CoveredKeepsListed(c, slug, pageID);
    if pageID > 0 { CoveredPageIsGone(c, slug, pageID); }
  }

  /** A slug with a colon, read as a role and the slug of a page. */
  lemma {:induction false} CutAtColon(slug: string) returns (role: string, rest: string)
    requires !Free(slug, ':')
    ensures Free(role, ':') && slug == role + [':'] + rest
  {
    assert slug == [slug[0]] + slug[1..];
    if slug[0] == ':' {
      return "", slug[1..];
    }
    role, rest := CutAtColon(slug[1..]);
    role := [slug[0]] + role;
  }

  /** The two variants that mislead such a slug: it spans the role of the first only. */
  lemma SpansOneRole(role: string, rest: string)
    requires Free(role, ':')
    ensures var t := ":" + (role + [':'] + rest);
            && HasSuffix(PageKey(Context("en", role), rest), t)
            && !HasSuffix(PageKey(Context("en", role + "x"), rest), t)
  {
    var t := ":" + (role + [':'] + rest);
    var hit, missed := PageKey(Context("en", role), rest), PageKey(Context("en", role + "x"), rest);
    assert hit == "en" + t && hit[2..] == t;
    assert missed == "en:" + (role + "x" + ":" + rest);
    assert missed[|missed| - |t|..][0] == (role + "x")[0];
  }

  function OnePage(slug: string): Page
  {
    Page(1, slug, "en", true, "")
  }

  /** Page 1, looked up for the role that the slug spans and for another one. */
  function TwoVariants(role: string, rest: string): Indexes
  {
    Stored(Stored(EMPTY, OnePage(rest), Context("en", role)), OnePage(rest), Context("en", role + "x"))
  }

  lemma SlugStrandsAVariant(role: string, rest: string)
    requires Free(role, ':')
    ensures var c, slug := TwoVariants(role, rest), role + [':'] + rest;
            && Coherent(c, map[1 := OnePage(rest)]) && ScanLeaves(c, slug, 1) && !Covers(c, slug, 1)
  {
    var p, slug := OnePage(rest), role + [':'] + rest;
    var one, two := Context("en", role), Context("en", role + "x");
    var db, c := map[1 := p], TwoVariants(role, rest);
    assert Current(db, p);
    StoreKeepsCoherent(EMPTY, db, p, one);
    StoreKeepsCoherent(Stored(EMPTY, p, one), db, p, two);
    SpansOneRole(role, rest);
    assert PageKey(one, rest) in SlugMatches(c, slug) && c.bySlug[PageKey(one, rest)].id == 1;
    assert PageKey(two, rest) in c.bySlug && c.bySlug[PageKey(two, rest)].id == 1;
  }

  /** `InvalidateBySlug` keeps the reverse index complete in every coherent cache exactly for colon-free slugs. */
  lemma SlugIsSafeExactlyWhenColonFree(slug: string)
    ensures (forall c, db, id :: Coherent(c, db) && ScanLeaves(c, slug, id) ==> Listed(WithoutSlug(c, slug, id)))
            <==> Free(slug, ':')
  {
    if Free(slug, ':') {
      forall c, db, id | Coherent(c, db) && ScanLeaves(c, slug, id) ensures Listed(WithoutSlug(c, slug, id)) {
        ColonFreeSlugCovers(c, db, slug, id);
        ListedExactlyWhenCovered(c, slug, id);
      }
    } else {
      var role, rest := CutAtColon(slug);
      var c := TwoVariants(role, rest);
      SlugStrandsAVariant(role, rest);
      ListedExactlyWhenCovered(c, slug, 1);
      assert Coherent(c, map[1 := OnePage(rest)]) && ScanLeaves(c, slug, 1);
    }
  }

  // ---------- What is cleared ----------

  /** Colon-free slugs and positive ids, as the admin forms produce them. */
  ghost predicate PlainStore(db: Pages)
  {
    ValidStore(db) && forall id :: id in db ==> id > 0 && Free(db[id].slug, ':')
  }

  /** What follows the last colon. */
  function Tail(slug: string): string
  {
    if Free(slug, ':') then slug else Tail(slug[1..])
  }

  lemma {:induction false} TailIsCutOff(slug: string) returns (head: string)
    requires !Free(slug, ':')
    ensures Free(Tail(slug), ':') && slug == head + ([':'] + Tail(slug))
  {
    var rest := slug[1..];
    assert slug == [slug[0]] + rest;
    if Free(rest, ':') {
      head := "";
    } else {
      head := TailIsCutOff(rest);
      head := [slug[0]] + head;
    }
  }

  lemma TailIsSuffix(slug: string)
    ensures Free(Tail(slug), ':') && HasSuffix(":" + slug, ":" + Tail(slug))
  {
    if !Free(slug, ':') {
      var head := TailIsCutOff(slug);
      var t := ":" + Tail(slug);
      assert ":" + slug == (":" + head) + t;
      assert (":" + slug)[|":" + head|..] == t;
    }
  }

  lemma SuffixTransitive(s: string, t: string, u: string)
    requires HasSuffix(s, t) && HasSuffix(t, u)
    ensures HasSuffix(s, u)
  {
    assert s[|s| - |u|..] == s[|s| - |t|..][|t| - |u|..];
  }

  /** Over a plain store a matching entry is one of the page whose slug ends the given one. */
  lemma MatchIsOfTheTail(c: Indexes, db: Pages, slug: string, k: string)
    requires Filed(c) && Agrees(c, db) && PlainStore(db) && k in SlugMatches(c, slug)
    ensures c.bySlug[k].slug == Tail(slug)
  {
    TailIsSuffix(slug);
    SuffixTransitive(k, ":" + slug, ":" + Tail(slug));
    SlugMatchIsOfThePage(c, k, Tail(slug));
    assert Current(db, c.bySlug[k]);
    SuffixIsEquality(c.bySlug[k].slug, Tail(slug));
  }

  /** So a scan that matches anything settles on that page. */
  lemma ScanSettlesOnTheSlug(c: Indexes, db: Pages, slug: string, pageID: int)
    requires Filed(c) && Agrees(c, db) && PlainStore(db) && ScanLeaves(c, slug, pageID)
    requires SlugMatches(c, slug) != {}
    ensures pageID > 0 && pageID in db && db[pageID].slug == Tail(slug)
  {
    var m :| m in SlugMatches(c, slug) && c.bySlug[m].id == pageID;
    MatchIsOfTheTail(c, db, slug, m);
    assert Current(db, c.bySlug[m]);
  }

  /** No variant of a page with this slug is left. */
  ghost predicate Cleared(c: Indexes, slug: string)
  {
    && (forall k :: k in c.bySlug ==> c.bySlug[k].slug != slug)
    && (forall k :: k in c.byID ==> c.byID[k].slug != slug)
  }

  /** An entry of a page with this slug always matches. */
  lemma OwnSlugMatches(c: Indexes, slug: string, k: string)
    requires Filed(c) && k in c.bySlug && c.bySlug[k].slug == slug
    ensures k in SlugMatches(c, slug)
  {
    var p := c.bySlug[k];
    assert FiledBySlug(k, p);
    var role :| Free(role, ':') && Free(p.languageCode, ':') && k == PageKey(Context(p.languageCode, role), p.slug);
    KeyEndsInSlug(Context(p.languageCode, role), slug);
  }

  /**
   In any cache, every variant of the slug is removed exactly when all its id entries are of
   the one page the scan settled on.
   */
  lemma ClearedExactlyWhenSettled(c: Indexes, slug: string, pageID: int)
    requires Filed(c)
    ensures Cleared(WithoutSlug(c, slug, pageID), slug)
            <==> forall k :: k in c.byID && c.byID[k].slug == slug ==> pageID > 0 && c.byID[k].id == pageID
  {
    var c' := WithoutSlug(c, slug, pageID);
    forall k | k in c'.bySlug ensures c'.bySlug[k].slug != slug {
      if c.bySlug[k].slug == slug { OwnSlugMatches(c, slug, k); }
    }
    forall k | k in c.byID ensures k in c'.byID <==> !(pageID > 0 && c.byID[k].id == pageID) {
      IDMatchIsOfThePage(c, k, pageID);
    }
  }

  lemma MatchSettlesIDs(c: Indexes, db: Pages, slug: string, pageID: int, k: string)
    requires Coherent(c, db) && PlainStore(db) && ScanLeaves(c, slug, pageID) && SlugMatches(c, slug) != {}
    requires k in c.byID && c.byID[k].slug == slug
    ensures pageID > 0 && c.byID[k].id == pageID
  {
    ScanSettlesOnTheSlug(c, db, slug, pageID);
    assert Current(db, c.byID[k]);
  }

  /**
   In a coherent cache over a plain store that is: when the scan matched, or there was no id
   entry to remove.
   */
  lemma ClearedExactlyWhenMatched(c: Indexes, db: Pages, slug: string, pageID: int)
    requires Coherent(c, db) && PlainStore(db) && ScanLeaves(c, slug, pageID)
    ensures Cleared(WithoutSlug(c, slug, pageID), slug)
            <==> SlugMatches(c, slug) != {} || forall k :: k in c.byID ==> c.byID[k].slug != slug
  {
    ClearedExactlyWhenSettled(c, slug, pageID);
    if SlugMatches(c, slug) != {} {
      forall k | k in c.byID && c.byID[k].slug == slug ensures pageID > 0 && c.byID[k].id == pageID {
        MatchSettlesIDs(c, db, slug, pageID, k);
      }
    }
  }
}
