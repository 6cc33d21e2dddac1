/** The context-aware keys of `internal/cache/context.go`. */
module CacheContext {
  import opened Text

  datatype Context = Context(languageCode: string, role: string)

  /** Codes and roles that keep the key format readable. */
  predicate ColonFree(c: Context)
  {
    Free(c.languageCode, ':') && Free(c.role, ':')
  }

  function PageKey(c: Context, slug: string): string
  {
    c.languageCode + ":" + c.role + ":" + slug
  }

  function PageIDKey(c: Context, id: int): string
  {
    PageKey(c, FormatInt(id))
  }

  function NewContext(langCode: string, role: string): (c: Context)
    ensures c.languageCode != "" && c.role != ""
    ensures Free(langCode, ':') && Free(role, ':') ==> ColonFree(c)
  {
    Context(if langCode == "" then "en" else langCode, if role == "" then "anonymous" else role)
  }

  /** A key names one context and one slug, whatever colons the slug itself holds. */
  lemma PageKeyInjective(c: Context, d: Context, s: string, t: string)
    requires ColonFree(c) && ColonFree(d)
    ensures PageKey(c, s) == PageKey(d, t) <==> c == d && s == t
  {
    if PageKey(c, s) == PageKey(d, t) {
      var x, y := c.role + ":" + s, d.role + ":" + t;
      assert PageKey(c, s) == c.languageCode + [':'] + x;
      assert PageKey(d, t) == d.languageCode + [':'] + y;
      CutUnique(c.languageCode, d.languageCode, x, y, ':');
      assert x == c.role + [':'] + s && y == d.role + [':'] + t;
      CutUnique(c.role, d.role, s, t, ':');
    }
  }

  /** A key is the language, the role and the slug or id, in this order, between colons. */
  lemma KeyParts(c: Context, slug: string, id: int)
    requires ColonFree(c) && Free(slug, ':')
    ensures Split(PageKey(c, slug), ':') == [c.languageCode, c.role, slug]
    ensures Split(PageIDKey(c, id), ':') == [c.languageCode, c.role, FormatInt(id)]
  {
    FormatIntFree(id, ':');
    ThreeParts(c.languageCode, c.role, slug);
    ThreeParts(c.languageCode, c.role, FormatInt(id));
  }

  lemma ThreeParts(a: string, b: string, s: string)
    requires Free(a, ':') && Free(b, ':') && Free(s, ':')
    ensures Split(a + ":" + b + ":" + s, ':') == [a, b, s]
  {
    SplitWhole(s, ':');
    SplitCuts(b, ':', s);
    SplitCuts(a, ':', b + [':'] + s);
    assert a + ":" + b + ":" + s == a + [':'] + (b + [':'] + s);
  }

  lemma PageIDKeyInjective(c: Context, d: Context, m: int, n: int)
    requires ColonFree(c) && ColonFree(d)
    ensures PageIDKey(c, m) == PageIDKey(d, n) <==> c == d && m == n
  {
    PageKeyInjective(c, d, FormatInt(m), FormatInt(n));
    FormatIntInjective(m, n);
  }

  /** Why colon-free roles are asked for: otherwise a role can reach into the slug. */
  lemma ColonInRoleMixesKeys(lang: string, role: string, slug: string, tail: string)
    ensures PageKey(Context(lang, role + ":" + slug), tail) == PageKey(Context(lang, role), slug + ":" + tail)
    ensures Context(lang, role + ":" + slug) != Context(lang, role)
  {
    assert |role + ":" + slug| > |role|;
  }

  predicate HasSuffix(s: string, t: string)
  {
    |t| <= |s| && s[|s| - |t|..] == t
  }

  lemma KeyEndsInSlug(c: Context, slug: string)
    ensures HasSuffix(PageKey(c, slug), ":" + slug)
  {
    var head := c.languageCode + ":" + c.role;
    assert PageKey(c, slug) == head + (":" + slug);
    assert PageKey(c, slug)[|head|..] == ":" + slug;
  }

  lemma SuffixOfTail(head: string, x: string, t: string)
    requires |t| <= |x|
    ensures HasSuffix(head + x, t) <==> HasSuffix(x, t)
  {
    assert (head + x)[|head + x| - |t|..] == x[|x| - |t|..];
  }

  /** A suffix cannot reach back over a colon it does not have. */
  lemma SuffixStopsAtColon(head: string, s: string, slug: string)
    requires Free(slug, ':') && |s| < |slug|
    ensures !HasSuffix(head + ":" + s, ":" + slug)
  {
    var key, t := head + ":" + s, ":" + slug;
    var at := |slug| - |s|;
    assert t[at] == slug[at - 1] != ':';
    assert key[|head|] == ':';
    if |t| <= |key| { assert key[|key| - |t|..][at] == key[|head|]; }
  }

  /** A colon-free slug is a suffix of a key exactly when it is one of the key's slug part. */
  lemma SlugSuffixOfKey(c: Context, s: string, slug: string)
    requires Free(slug, ':')
    ensures HasSuffix(PageKey(c, s), ":" + slug) <==> HasSuffix(":" + s, ":" + slug)
  {
    var head := c.languageCode + ":" + c.role;
    assert PageKey(c, s) == head + (":" + s) == head + ":" + s;
    if |slug| <= |s| {
      SuffixOfTail(head, ":" + s, ":" + slug);
    } else {
      SuffixStopsAtColon(head, s, slug);
    }
  }

  /** For a colon-free slug part the suffix test is equality. */
  lemma SuffixIsEquality(s: string, slug: string)
    requires Free(s, ':') && Free(slug, ':')
    ensures HasSuffix(":" + s, ":" + slug) <==> s == slug
  {
    var x, t := ":" + s, ":" + slug;
    assert forall i :: 1 <= i < |x| ==> x[i] == s[i - 1] != ':';
    if HasSuffix(x, t) {
      var at := |x| - |t|;
      assert x[at] == x[at..][0] == ':';
      assert at == 0 && x[0..] == x;
      assert s == x[1..] && slug == t[1..];
    }
  }

  lemma IDSuffixOfKey(c: Context, m: int, n: int)
    ensures HasSuffix(PageIDKey(c, m), ":" + FormatInt(n)) <==> m == n
  {
    FormatIntFree(m, ':');
    FormatIntFree(n, ':');
    SlugSuffixOfKey(c, FormatInt(m), FormatInt(n));
    SuffixIsEquality(FormatInt(m), FormatInt(n));
    FormatIntInjective(m, n);
  }
}
