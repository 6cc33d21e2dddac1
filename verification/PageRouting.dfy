/**
 How a public page address is resolved: the language prefix that `internal/middleware/language.go`
 strips, the routes of `cmd/ocms/main.go`, and the page, page-id and alias handlers of
 `internal/handler/frontend.go`.
 */
module PageRouting {
  import opened Common
  import opened Text
  import opened LanguageCaching
  import opened PageCaching

  // ---------- Slugs and language codes ----------

  predicate IsAlphanumeric(c: char)
  {
    'a' <= c <= 'z' || '0' <= c <= '9'
  }

  predicate HasDoubleHyphen(s: string)
  {
    exists i :: 0 <= i < |s| - 1 && s[i] == '-' && s[i + 1] == '-'
  }

  /** The format that slugs and language codes share. */
  predicate IsHyphenated(s: string)
  {
    && s != ""
    && (forall i :: 0 <= i < |s| ==> IsAlphanumeric(s[i]) || s[i] == '-')
    && s[0] != '-' && s[|s| - 1] != '-'
    && !HasDoubleHyphen(s)
  }

  ghost predicate IsWord(w: string)
  {
    w != "" && forall i :: 0 <= i < |w| ==> 'a' <= w[i] <= 'z' || '0' <= w[i] <= '9'
  }

  ghost predicate AllWords(words: seq<string>)
  {
    forall i :: 0 <= i < |words| ==> IsWord(words[i])
  }

  lemma AllWordsCons(w: string, words: seq<string>)
    ensures AllWords([w] + words) <==> IsWord(w) && AllWords(words)
  {
    var all := [w] + words;
    if AllWords(all) { assert all[0] == w && forall i :: 0 <= i < |words| ==> words[i] == all[i + 1]; }
  }

  lemma HyphenatedTail(s: string)
    requires |s| > 1 && s[0] != '-'
    ensures s[1] != '-' ==> (IsHyphenated(s) <==> IsAlphanumeric(s[0]) && IsHyphenated(s[1..]))
    ensures s[1] == '-' ==> (IsHyphenated(s) <==> IsAlphanumeric(s[0]) && IsHyphenated(s[2..]))
  {
    var n := if s[1] == '-' then 2 else 1;
    var rest := s[n..];
    assert forall i :: 0 <= i < |rest| ==> rest[i] == s[i + n];
    if HasDoubleHyphen(rest) {
      var i :| 0 <= i < |rest| - 1 && rest[i] == '-' && rest[i + 1] == '-';
      assert s[i + n] == '-' && s[i + n + 1] == '-';
    }
    if HasDoubleHyphen(s) {
      var i :| 0 <= i < |s| - 1 && s[i] == '-' && s[i + 1] == '-';
      if i >= n { assert rest[i - n] == '-' && rest[i - n + 1] == '-'; }
    }
    if IsHyphenated(rest) && IsAlphanumeric(s[0]) {
      assert forall i :: n <= i < |s| ==> s[i] == rest[i - n];
    }
  }

  /** A slug or code is lower-case alphanumeric words, joined by single hyphens. */
  lemma {:induction false} HyphenatedIsWords(s: string)
    ensures IsHyphenated(s) <==> AllWords(Split(s, '-'))
    decreases |s|
  {
    if s == "" || s[0] == '-' {
      assert !IsWord(Split(s, '-')[0]);
    } else if |s| == 1 {
      assert Split(s[1..], '-') == [""] && Split(s, '-') == [[s[0]] + ""];
      assert [s[0]] + "" == s && [s] + [] == [s];
      AllWordsCons(s, []);
      assert IsWord(s) <==> IsAlphanumeric(s[0]);
    } else if s[1] == '-' {
      HyphenatedTail(s);
      HyphenatedIsWords(s[2..]);
      var word := [s[0]];
      assert s[1..][1..] == s[2..] && Split(s[1..], '-') == [""] + Split(s[2..], '-');
      assert Split(s, '-') == [word + ""] + Split(s[2..], '-') && word + "" == word;
      AllWordsCons(word, Split(s[2..], '-'));
      assert word[0] == s[0] && (IsWord(word) <==> IsAlphanumeric(s[0]));
    } else {
      HyphenatedTail(s);
      HyphenatedIsWords(s[1..]);
      LongerWord(s[0], Split(s[1..], '-')[0], Split(s[1..], '-')[1..]);
      assert Split(s[1..], '-') == [Split(s[1..], '-')[0]] + Split(s[1..], '-')[1..];
      assert Split(s[1..], '-')[0] != "";
    }
  }

  lemma LongerWord(c: char, w: string, words: seq<string>)
    requires w != ""
    ensures AllWords([[c] + w] + words) <==> IsAlphanumeric(c) && AllWords([w] + words)
  {
    AllWordsCons([c] + w, words);
    AllWordsCons(w, words);
    var x := [c] + w;
    assert x[0] == c && forall i :: 0 <= i < |w| ==> w[i] == x[i + 1];
  }

  predicate IsValidSlug(s: string)
  {
    IsHyphenated(s)
  }

  predicate IsValidLangCode(s: string)
  {
    2 <= |s| <= 10 && IsHyphenated(s)
  }

  predicate IsReservedLanguageCode(s: string)
  {
    s in {"admin", "api", "blog", "uploads", "static", "themes", "health", "login", "logout", "language",
          "forms", "search", "tag", "category", "page", "session"}
  }

  predicate IsRoutableCode(s: string)
  {
    IsValidLangCode(s) && !IsReservedLanguageCode(s)
  }

  // ---------- The site ----------

  /** `outer` says which paths other routers take before the frontend one. */
  datatype Site = Site(pages: Pages, aliases: map<string, int>, languages: seq<Language>, outer: string -> bool)

  ghost predicate ValidSite(site: Site)
  {
    && ValidStore(site.pages)
    && DistinctCodes(site.languages)
  }

  /** `GetLanguageByCode`. */
  function LanguageByCode(site: Site, code: string): Option<Language>
  {
    if code in ByCode(site.languages) then Some(ByCode(site.languages)[code]) else None
  }

  /** `GetPublishedPageByAlias`. */
  function ByAlias(site: Site, alias: string): Option<Page>
  {
    if alias in site.aliases then ByID(site.pages, site.aliases[alias]) else None
  }

  // ---------- The language middleware ----------

  /** What the request context holds after the middleware, and the path left to route. */
  datatype Context = Context(prefix: string, language: Option<Language>, routePath: string)

  /** `activeLanguageMap`: active languages whose code may stand in a URL. */
  predicate IsPrefix(site: Site, code: string)
  {
    IsRoutableCode(code) && LanguageByCode(site, code).Some? && LanguageByCode(site, code).value.isActive
  }

  function TrimSlash(path: string): string
  {
    if path != "" && path[0] == '/' then path[1..] else path
  }

  /** Everything before the first slash. */
  function FirstSegment(path: string): string
  {
    Split(TrimSlash(path), '/')[0]
  }

  /** The path without its first segment. */
  function AfterFirstSegment(path: string): string
  {
    var trimmed, code := TrimSlash(path), FirstSegment(path);
    if |trimmed| > |code| then "/" + trimmed[|code| + 1..] else "/"
  }

  /**
   The middleware, for paths other than the home page. A language chosen by cookie, header or
   query parameter sets no prefix, and page routes look at the language only with a prefix.
   */
  function LanguageContext(site: Site, path: string): Context
  {
    var code := FirstSegment(path);
    if DefaultOf(site.languages).None? then Context("", None, path)
    else if IsPrefix(site, code) then Context(code, LanguageByCode(site, code), AfterFirstSegment(path))
    else Context("", None, path)
  }

  // ---------- Routes ----------

  datatype Route = HomeRoute | OtherRoute | PageRoute(slug: string) | PageByIDRoute(id: string) | Unmatched

  /** One-segment routes that win over `/{slug}`. */
  predicate IsFixedName(name: string)
  {
    name == "search" || name == "blog"
  }

  function RouteOf(path: string): Route
  {
    var segments := Split(TrimSlash(path), '/');
    if path == "" || path == "/" then HomeRoute
    else if path[0] != '/' then Unmatched
    else if |segments| == 1 then (if IsFixedName(segments[0]) then OtherRoute else PageRoute(segments[0]))
    else if |segments| == 2 && segments[1] != "" && segments[0] == "page" then PageByIDRoute(segments[1])
    else if |segments| == 2 && segments[1] != "" && segments[0] in ["category", "tag", "forms"] then OtherRoute
    else if |segments| == 3 && segments[..2] == ["blog", "tag"] && segments[2] != "" then OtherRoute
    else Unmatched
  }

  // ---------- Canonical addresses ----------

  /** `explicitPageLanguage`; `None` when the prefix is not to be trusted. */
  function ExplicitPageLanguage(ctx: Context): Option<string>
  {
    if ctx.prefix == "" then Some("")
    else if ctx.language.None? || ctx.language.value.code != ctx.prefix || !IsRoutableCode(ctx.prefix) then None
    else Some(ctx.prefix)
  }

  /** `canonicalPageLanguagePrefix`: empty for the default language, the code otherwise. */
  function CanonicalPrefix(site: Site, page: Page): Option<string>
  {
    var default, lang := DefaultOf(site.languages), LanguageByCode(site, page.languageCode);
    if !IsValidSlug(page.slug) || default.None? then None
    else if lang.None? || !lang.value.isActive || lang.value.code != page.languageCode then None
    else if !IsRoutableCode(lang.value.code) then None
    else if lang.value.id == default.value.id && lang.value.code == default.value.code then Some("")
    else Some(lang.value.code)
  }

  function CanonicalAliasPrefix(site: Site, ctx: Context, page: Page): Option<string>
  {
    match CanonicalPrefix(site, page)
    case None => None
    case Some(canonical) =>
      match ExplicitPageLanguage(ctx)
      case None => None
      case Some(explicit) =>
        if explicit == "" || page.languageCode == explicit then Some(canonical) else None
  }

  function Location(prefix: string, slug: string): string
  {
    if prefix == "" then "/" + slug else "/" + prefix + "/" + slug
  }

  /** `writePermanentPageRedirect`; `None` when it refuses. */
  function PermanentRedirect(prefix: string, slug: string): Option<string>
  {
    if !IsValidSlug(slug) || (prefix != "" && !IsRoutableCode(prefix)) then None
    else Some(Location(prefix, slug))
  }

  // ---------- The handlers ----------

  datatype Response = Rendered(page: Page) | MovedTo(location: string) | NotFound | NotAPage

  function RedirectPageAlias(site: Site, ctx: Context, alias: string): Option<string>
  {
    match ByAlias(site, alias)
    case None => None
    case Some(page) =>
      match CanonicalAliasPrefix(site, ctx, page)
      case None => None
      case Some(prefix) => PermanentRedirect(prefix, page.slug)
  }

  /** The requested path below its language prefix. */
  function AliasLookupPath(ctx: Context, path: string): string
  {
    var trimmed := TrimSlash(path);
    if ctx.prefix == "" then trimmed
    else if ctx.prefix + "/" <= trimmed then trimmed[|ctx.prefix| + 1..]
    else ""
  }

  /** `renderNotFound` tries the whole path as an alias first. */
  function RenderNotFound(site: Site, ctx: Context, path: string): Response
  {
    var alias := AliasLookupPath(ctx, path);
    if alias == "" then NotFound
    else match RedirectPageAlias(site, ctx, alias) case Some(to) => MovedTo(to) case None => NotFound
  }

  /** The language whose pages the address owns. */
  function RouteLanguage(site: Site, ctx: Context): Option<string>
  {
    match ExplicitPageLanguage(ctx)
    case None => None
    case Some(explicit) =>
      if explicit != "" then Some(explicit)
      else
        match DefaultOf(site.languages)
        case None => None
        case Some(default) => if default.isActive && IsRoutableCode(default.code) then Some(default.code) else None
  }

  /** The unpublished page an editor may preview at this slug. */
  ghost function DraftFor(site: Site, slug: string, lang: string): Option<Page>
  {
    if exists id :: id in site.pages && site.pages[id].slug == slug && !site.pages[id].published
                    && site.pages[id].languageCode == lang then
      var id :| id in site.pages && site.pages[id].slug == slug && !site.pages[id].published
                && site.pages[id].languageCode == lang;
      Some(site.pages[id])
    else None
  }

  ghost function ServePage(site: Site, ctx: Context, path: string, slug: string, editor: bool): Response
  {
    match RouteLanguage(site, ctx)
    case None => RenderNotFound(site, ctx, path)
    case Some(lang) =>
      var published := BySlug(site.pages, slug, lang);
      var alias := RedirectPageAlias(site, ctx, slug);
      if published.None? && alias.Some? then MovedTo(alias.value)
      else
        var page := if published.Some? then published else if editor then DraftFor(site, slug, lang) else None;
        if page.None? || CanonicalPrefix(site, page.value).None? then RenderNotFound(site, ctx, path)
        else Rendered(page.value)
  }

  function ParseInt64(s: string): Option<int>
  {
    var digits := if s != "" && (s[0] == '-' || s[0] == '+') then s[1..] else s;
    if digits == "" || !AllDigits(digits) then None
    else
      var m: int := DigitsValue(digits);
      var n := if s[0] == '-' then -m else m;
      if -0x8000_0000_0000_0000 <= n < 0x8000_0000_0000_0000 then Some(n) else None
  }

  function ServePageByID(site: Site, ctx: Context, path: string, id: string): Response
  {
    var n := ParseInt64(id);
    var page := if n.Some? then ByID(site.pages, n.value) else None;
    if page.None? then RenderNotFound(site, ctx, path)
    else
      var prefix := CanonicalPrefix(site, page.value);
      var to := if prefix.Some? then PermanentRedirect(prefix.value, page.value.slug) else None;
      match to case Some(location) => MovedTo(location) case None => RenderNotFound(site, ctx, path)
  }

  /** The answer to a request for `path`; `editor` says whether drafts may be previewed. */
  ghost function Serve(site: Site, path: string, editor: bool): Response
  {
    var ctx := LanguageContext(site, path);
    if site.outer(path) then NotAPage
    else
      match RouteOf(ctx.routePath)
      case PageRoute(slug) => ServePage(site, ctx, path, slug, editor)
      case PageByIDRoute(id) => ServePageByID(site, ctx, path, id)
      case Unmatched => RenderNotFound(site, ctx, path)
      case _ => NotAPage
  }

  // ---------- Paths of canonical addresses ----------

  lemma ValidIsSlashFree(s: string)
    requires IsHyphenated(s)
    ensures Free(s, '/')
  {
  }

  lemma OneSegment(slug: string)
    requires IsValidSlug(slug)
    ensures TrimSlash("/" + slug) == slug && Split(slug, '/') == [slug]
    ensures FirstSegment("/" + slug) == slug
    ensures RouteOf("/" + slug) == if IsFixedName(slug) then OtherRoute else PageRoute(slug)
  {
    ValidIsSlashFree(slug);
    SplitWhole(slug, '/');
    assert ("/" + slug)[1..] == slug;
  }

  lemma TwoSegments(prefix: string, slug: string)
    requires IsRoutableCode(prefix) && IsValidSlug(slug)
    ensures var path := Location(prefix, slug); FirstSegment(path) == prefix && AfterFirstSegment(path) == "/" + slug
  {
    ValidIsSlashFree(prefix);
    var path, trimmed := Location(prefix, slug), prefix + "/" + slug;
    assert path[1..] == trimmed;
    SplitCuts(prefix, '/', slug);
    assert prefix + ['/'] + slug == trimmed;
    assert trimmed[|prefix| + 1..] == slug;
  }

  /** A language code is two to ten characters of such words. */
  lemma LangCodeIsWords(s: string)
    ensures IsValidLangCode(s) <==> 2 <= |s| <= 10 && AllWords(Split(s, '-'))
  {
    HyphenatedIsWords(s);
  }

  lemma OnePart(name: string)
    requires name != "" && Free(name, '/')
    ensures TrimSlash("/" + name) == name && Split(name, '/') == [name]
  {
    SplitWhole(name, '/');
    assert ("/" + name)[1..] == name;
  }

  lemma TwoParts(start: string, first: string, name: string)
    requires start == "/" + first + "/" && Free(first, '/') && name != "" && Free(name, '/')
    ensures (start + name)[0] == '/' && TrimSlash(start + name) == first + ['/'] + name
    ensures Split(first + ['/'] + name, '/') == [first, name]
  {
    SplitWhole(name, '/');
    SplitCuts(first, '/', name);
    assert (start + name)[1..] == first + ['/'] + name;
  }

  /** The home page, and the paths of one segment. */
  lemma OneSegmentRoutes(name: string)
    requires name != "" && Free(name, '/')
    ensures RouteOf("/") == HomeRoute && RouteOf("") == HomeRoute
    ensures RouteOf("/" + name) == if name == "search" || name == "blog" then OtherRoute else PageRoute(name)
  {
    OnePart(name);
  }

  lemma PageIDRoute(name: string)
    requires name != "" && Free(name, '/')
    ensures RouteOf("/page/" + name) == PageByIDRoute(name)
  {
    TwoPartRoute("/page/", "page", name);
  }

  /** Paths of more segments that are not pages. */
  lemma ListRoutes(name: string)
    requires name != "" && Free(name, '/')
    ensures RouteOf("/category/" + name) == RouteOf("/tag/" + name) == RouteOf("/forms/" + name) == OtherRoute
    ensures RouteOf("/blog/tag/" + name) == OtherRoute
  {
    TwoPartRoute("/category/", "category", name);
    TwoPartRoute("/tag/", "tag", name);
    TwoPartRoute("/forms/", "forms", name);
    BlogTagRoute(name);
  }

  lemma TwoPartRoute(start: string, first: string, name: string)
    requires start == "/" + first + "/" && first in {"page", "category", "tag", "forms"}
    requires name != "" && Free(name, '/')
    ensures RouteOf(start + name) == if first == "page" then PageByIDRoute(name) else OtherRoute
  {
    TwoParts(start, first, name);
  }

  lemma BlogTagRoute(name: string)
    requires name != "" && Free(name, '/')
    ensures RouteOf("/blog/tag/" + name) == OtherRoute
  {
    var path := "/blog/tag/" + name;
    SplitWhole(name, '/');
    SplitCuts("tag", '/', name);
    SplitCuts("blog", '/', "tag" + ['/'] + name);
    assert path[1..] == "blog" + ['/'] + ("tag" + ['/'] + name);
    var segments := Split(path[1..], '/');
    assert segments == ["blog"] + (["tag"] + [name]);
    assert segments[..2] == ["blog", "tag"] && path[0] == '/';
  }

  // ---------- Every redirect is canonical ----------

  ghost predicate IsCanonicalFor(site: Site, page: Page, location: string)
  {
    Current(site.pages, page) && CanonicalPrefix(site, page).Some?
    && location == Location(CanonicalPrefix(site, page).value, page.slug)
  }

  lemma AliasRedirectIsCanonical(site: Site, ctx: Context, alias: string) returns (page: Page)
    requires ValidSite(site) && RedirectPageAlias(site, ctx, alias).Some?
    ensures IsCanonicalFor(site, page, RedirectPageAlias(site, ctx, alias).value)
    ensures ctx.prefix != "" ==> page.languageCode == ctx.prefix
  {
    page := ByAlias(site, alias).value;
  }

  /** Whatever is redirected goes to the canonical address of a published page. */
  lemma RedirectIsCanonical(site: Site, path: string, editor: bool) returns (page: Page)
    requires ValidSite(site)
    ensures Serve(site, path, editor).MovedTo? ==> IsCanonicalFor(site, page, Serve(site, path, editor).location)
  {
    page := Page(0, "", "", false, "");
    if Serve(site, path, editor).MovedTo? {
      page := RedirectedPage(site, path, editor);
    }
  }

  lemma RedirectedPage(site: Site, path: string, editor: bool) returns (page: Page)
    requires ValidSite(site) && Serve(site, path, editor).MovedTo?
    ensures IsCanonicalFor(site, page, Serve(site, path, editor).location)
  {
    var ctx := LanguageContext(site, path);
    var route := RouteOf(ctx.routePath);
    if route.PageByIDRoute? && ParseInt64(route.id).Some? && ByID(site.pages, ParseInt64(route.id).value).Some? {
      page := ByID(site.pages, ParseInt64(route.id).value).value;
      var prefix := CanonicalPrefix(site, page);
      if prefix.Some? && PermanentRedirect(prefix.value, page.slug).Some? {
        return;
      }
    }
    if route.PageRoute? && RouteLanguage(site, ctx).Some?
       && BySlug(site.pages, route.slug, RouteLanguage(site, ctx).value).None?
       && RedirectPageAlias(site, ctx, route.slug).Some? {
      page := AliasRedirectIsCanonical(site, ctx, route.slug);
    } else {
      page := AliasRedirectIsCanonical(site, ctx, AliasLookupPath(ctx, path));
    }
  }

  // ---------- Canonical addresses are served ----------

  /** Another route or a language prefix takes the address away from the page. */
  predicate Shadowed(site: Site, prefix: string, slug: string)
  {
    site.outer(Location(prefix, slug)) || IsFixedName(slug) || (prefix == "" && IsPrefix(site, slug))
  }

  /** With distinct codes the canonical form of a default-language page names that language's row. */
  lemma CanonicalLanguage(site: Site, page: Page)
    requires ValidSite(site) && CanonicalPrefix(site, page).Some?
    ensures var prefix := CanonicalPrefix(site, page).value;
            && (prefix == "" ==> DefaultOf(site.languages).value == LanguageByCode(site, page.languageCode).value)
            && (prefix != "" ==> prefix == page.languageCode && IsPrefix(site, prefix))
  {
    var default := DefaultOf(site.languages).value;
    DefaultIsTheOnlyMarkedRow(site.languages, default);
    ByCodeIsTheTable(site.languages, default.code, default);
  }

  lemma DefaultAddressIsServed(site: Site, page: Page, editor: bool)
    requires ValidSite(site) && Current(site.pages, page) && CanonicalPrefix(site, page) == Some("")
    ensures Serve(site, Location("", page.slug), editor) == Rendered(page) <==> !Shadowed(site, "", page.slug)
  {
    CanonicalLanguage(site, page);
    OneSegment(page.slug);
    BySlugFinds(site.pages, page);
    var ctx := LanguageContext(site, Location("", page.slug));
    if !Shadowed(site, "", page.slug) {
      assert ctx.prefix == "" && RouteLanguage(site, ctx) == Some(page.languageCode);
    } else if IsPrefix(site, page.slug) {
      assert ctx.routePath == "/";
    }
  }

  lemma PrefixedAddressIsServed(site: Site, page: Page, editor: bool)
    requires ValidSite(site) && Current(site.pages, page)
    requires CanonicalPrefix(site, page).Some? && CanonicalPrefix(site, page) != Some("")
    ensures var prefix := CanonicalPrefix(site, page).value;
            Serve(site, Location(prefix, page.slug), editor) == Rendered(page) <==> !Shadowed(site, prefix, page.slug)
  {
    var prefix := CanonicalPrefix(site, page).value;
    CanonicalLanguage(site, page);
    TwoSegments(prefix, page.slug);
    OneSegment(page.slug);
    BySlugFinds(site.pages, page);
    var ctx := LanguageContext(site, Location(prefix, page.slug));
    assert ctx == Context(prefix, LanguageByCode(site, prefix), "/" + page.slug);
    assert RouteLanguage(site, ctx) == Some(page.languageCode);
  }

  /**
   A redirect is followed at most once: its target shows the page, to any visitor, exactly
   when no other route or language prefix shadows the target.
   */
  lemma RedirectReachesItsPage(site: Site, path: string, editor: bool, visitor: bool) returns (page: Page)
    requires ValidSite(site)
    ensures Serve(site, path, editor).MovedTo? ==>
              var location := Serve(site, path, editor).location;
              && IsCanonicalFor(site, page, location)
              && (Serve(site, location, visitor) == Rendered(page)
                  <==> !Shadowed(site, CanonicalPrefix(site, page).value, page.slug))
  {
    page := RedirectIsCanonical(site, path, editor);
    if Serve(site, path, editor).MovedTo? {
      if CanonicalPrefix(site, page).value == "" {
        DefaultAddressIsServed(site, page, visitor);
      } else {
        PrefixedAddressIsServed(site, page, visitor);
      }
    }
  }

  // ---------- Redirects that are made ----------

  lemma ParsePositive(d: string)
    requires d != "" && AllDigits(d) && DigitsValue(d) < 0x8000_0000_0000_0000
    ensures ParseInt64(d) == Some(DigitsValue(d))
  {
    assert IsDigit(d[0]);
  }

  lemma ParseNegative(d: string)
    requires d != "" && AllDigits(d) && DigitsValue(d) <= 0x8000_0000_0000_0000
    ensures ParseInt64("-" + d) == Some(0 - DigitsValue(d))
  {
    assert ("-" + d)[1..] == d;
  }

  lemma ParseReadsBack(id: int, s: string)
    requires -0x8000_0000_0000_0000 <= id < 0x8000_0000_0000_0000 && s == FormatInt(id)
    ensures ParseInt64(s) == Some(id)
  {
    var m: nat := if id < 0 then -id else id;
    var d := Digits(m);
    DigitsReadBack(m);
    if id < 0 {
      ParseNegative(d);
    } else {
      ParsePositive(d);
    }
  }

  lemma PageIDPath(id: int)
    ensures var path := "/page/" + FormatInt(id);
            && FirstSegment(path) == "page" && RouteOf(path) == PageByIDRoute(FormatInt(id))
  {
    var path, n := "/page/" + FormatInt(id), FormatInt(id);
    FormatIntFree(id, '/');
    SplitWhole(n, '/');
    SplitCuts("page", '/', n);
    assert path[1..] == "page" + ['/'] + n;
    assert Split(path[1..], '/') == ["page"] + [n];
  }

  /** The text is `digits`, after `sign` if that is not empty. */
  ghost predicate IsSigned(s: string, sign: string, digits: string)
  {
    s == sign + digits && digits != "" && AllDigits(digits)
  }

  lemma ParsedIsSigned(s: string, n: int)
    requires ParseInt64(s) == Some(n)
    ensures exists d :: (IsSigned(s, "", d) && n == DigitsValue(d)) || (IsSigned(s, "+", d) && n == DigitsValue(d))
                        || (IsSigned(s, "-", d) && n == 0 - DigitsValue(d))
  {
    if s[0] == '-' || s[0] == '+' {
      assert s == [s[0]] + s[1..];
      assert IsSigned(s, if s[0] == '-' then "-" else "+", s[1..]);
    } else {
      assert s == "" + s;
      assert IsSigned(s, "", s);
    }
  }

  lemma ParsePlus(d: string)
    requires d != "" && AllDigits(d) && DigitsValue(d) < 0x8000_0000_0000_0000
    ensures ParseInt64("+" + d) == Some(DigitsValue(d))
  {
    assert ("+" + d)[1..] == d;
  }

  /** Ids are read as decimal numbers with an optional sign, if they fit into 64 bits. */
  lemma ParseInt64ExactlyWhen(s: string, n: int)
    ensures ParseInt64(s) == Some(n) <==>
            && -0x8000_0000_0000_0000 <= n < 0x8000_0000_0000_0000
            && exists d :: (IsSigned(s, "", d) && n == DigitsValue(d)) || (IsSigned(s, "+", d) && n == DigitsValue(d))
                           || (IsSigned(s, "-", d) && n == 0 - DigitsValue(d))
  {
    if ParseInt64(s) == Some(n) {
      ParsedIsSigned(s, n);
    }
    if -0x8000_0000_0000_0000 <= n < 0x8000_0000_0000_0000 {
      if d :| IsSigned(s, "", d) && n == DigitsValue(d) {
        ParsePositive(d);
        assert s == d;
      }
      if d :| IsSigned(s, "+", d) && n == DigitsValue(d) { ParsePlus(d); }
      if d :| IsSigned(s, "-", d) && n == 0 - DigitsValue(d) { ParseNegative(d); }
    }
  }

  /** The permanent link of a page with a canonical address redirects there. */
  lemma PermanentLinkRedirects(site: Site, page: Page, editor: bool)
    requires ValidSite(site) && Current(site.pages, page) && CanonicalPrefix(site, page).Some?
    requires -0x8000_0000_0000_0000 <= page.id < 0x8000_0000_0000_0000 && !site.outer("/page/" + FormatInt(page.id))
    ensures Serve(site, "/page/" + FormatInt(page.id), editor)
         == MovedTo(Location(CanonicalPrefix(site, page).value, page.slug))
  {
    ParseReadsBack(page.id, FormatInt(page.id));
    PageIDPath(page.id);
    CanonicalLanguage(site, page);
    assert !IsPrefix(site, "page");
  }

  lemma {:induction false} SplitFirst(s: string, sep: char)
    ensures var first := Split(s, sep)[0]; first <= s && (|s| > |first| ==> s[|first|] == sep)
    ensures |Split(s, sep)| == 1 ==> Split(s, sep)[0] == s
  {
    if s != "" && s[0] != sep {
      SplitFirst(s[1..], sep);
      assert s == [s[0]] + s[1..];
    }
  }

  lemma PrefixIsCutOff(path: string)
    requires |TrimSlash(path)| > |FirstSegment(path)|
    ensures var trimmed, code := TrimSlash(path), FirstSegment(path);
            code + "/" <= trimmed && TrimSlash(AfterFirstSegment(path)) == trimmed[|code| + 1..]
  {
    var trimmed, code := TrimSlash(path), FirstSegment(path);
    SplitFirst(trimmed, '/');
    assert trimmed[..|code| + 1] == code + "/";
    assert ("/" + trimmed[|code| + 1..])[1..] == trimmed[|code| + 1..];
  }

  /** The page route looks up the same text, below the prefix, that the alias fallback does. */
  lemma RouteSlugIsAliasPath(site: Site, path: string)
    requires RouteOf(LanguageContext(site, path).routePath).PageRoute?
    ensures var ctx := LanguageContext(site, path); RouteOf(ctx.routePath).slug == AliasLookupPath(ctx, path)
  {
    var ctx := LanguageContext(site, path);
    SplitFirst(TrimSlash(ctx.routePath), '/');
    if ctx.prefix != "" {
      PrefixIsCutOff(path);
    }
  }

  lemma CanonicalIsSlashFree(site: Site, page: Page)
    requires CanonicalPrefix(site, page).Some?
    ensures Free(CanonicalPrefix(site, page).value, '/') && Free(page.slug, '/')
  {
    ValidIsSlashFree(page.slug);
    if CanonicalPrefix(site, page).value != "" { ValidIsSlashFree(CanonicalPrefix(site, page).value); }
  }

  lemma CanonicalAddressIsUnique(site: Site, p: Page, q: Page)
    requires ValidSite(site) && Current(site.pages, p) && Current(site.pages, q)
    requires CanonicalPrefix(site, p).Some? && CanonicalPrefix(site, q).Some?
    requires Location(CanonicalPrefix(site, p).value, p.slug) == Location(CanonicalPrefix(site, q).value, q.slug)
    ensures p == q
  {
    CanonicalIsSlashFree(site, p);
    CanonicalIsSlashFree(site, q);
    AddressNamesItsSlug(CanonicalPrefix(site, p).value, p.slug, CanonicalPrefix(site, q).value, q.slug);
  }

  /** An address without its leading slash. */
  function Below(prefix: string, slug: string): string
  {
    if prefix == "" then slug else prefix + ['/'] + slug
  }

  lemma BelowIsSlashFree(prefix: string, slug: string)
    requires Free(slug, '/')
    ensures Location(prefix, slug) == ['/'] + Below(prefix, slug)
    ensures Free(Below(prefix, slug), '/') <==> prefix == ""
  {
    if prefix != "" { assert Below(prefix, slug)[|prefix|] == '/'; }
  }

  lemma AddressNamesItsSlug(a: string, s: string, b: string, t: string)
    requires Free(a, '/') && Free(s, '/') && Free(b, '/') && Free(t, '/') && Location(a, s) == Location(b, t)
    ensures s == t
  {
    BelowIsSlashFree(a, s);
    BelowIsSlashFree(b, t);
    assert Below(a, s) == Location(a, s)[1..] == Location(b, t)[1..] == Below(b, t);
    if a != "" {
      CutUnique(a, b, s, t, '/');
    }
  }

  /** A published page with a canonical address owns `slug` in the language of the route. */
  ghost predicate Owns(site: Site, ctx: Context, slug: string, p: Page)
  {
    Current(site.pages, p) && p.slug == slug && RouteLanguage(site, ctx) == Some(p.languageCode)
    && CanonicalPrefix(site, p).Some?
  }

  /** The path is the permanent link of `p`, which has a canonical address. */
  ghost predicate IsPermanentLink(site: Site, ctx: Context, p: Page)
  {
    RouteOf(ctx.routePath).PageByIDRoute? && ParseInt64(RouteOf(ctx.routePath).id) == Some(p.id)
    && Current(site.pages, p) && CanonicalPrefix(site, p).Some?
  }

  /** What comes before an alias: another route, the page that owns the path, or a permanent link. */
  ghost predicate Taken(site: Site, path: string)
  {
    var ctx := LanguageContext(site, path);
    site.outer(path) ||
    match RouteOf(ctx.routePath)
    case HomeRoute => true
    case OtherRoute => true
    case PageRoute(slug) => exists p :: Owns(site, ctx, slug, p)
    case PageByIDRoute(_) => exists p :: IsPermanentLink(site, ctx, p)
    case Unmatched => false
  }

  /** `alias` is stored for `page`, which has a canonical address. */
  ghost predicate IsAliasOf(site: Site, alias: string, page: Page)
  {
    alias != "" && alias in site.aliases && site.aliases[alias] == page.id
    && Current(site.pages, page) && CanonicalPrefix(site, page).Some?
  }

  /** The context of a request as the middleware makes it. */
  ghost predicate IsRoutedContext(site: Site, ctx: Context)
  {
    ctx.prefix != "" ==> IsPrefix(site, ctx.prefix) && ctx.language == LanguageByCode(site, ctx.prefix)
  }

  /** With distinct codes the row looked up by a code has that code. */
  lemma PrefixHasItsCode(site: Site, code: string)
    requires ValidSite(site) && LanguageByCode(site, code).Some?
    ensures LanguageByCode(site, code).value.code == code
  {
    ByCodeIsTheTable(site.languages, code, LanguageByCode(site, code).value);
  }

  /** An alias is allowed without a prefix, and below the prefix of its page's language only. */
  lemma AliasIsAllowedExactlyWhen(site: Site, ctx: Context, alias: string, page: Page)
    requires ValidSite(site) && IsAliasOf(site, alias, page) && IsRoutedContext(site, ctx)
    ensures RedirectPageAlias(site, ctx, alias)
         == if ctx.prefix == "" || page.languageCode == ctx.prefix
            then Some(Location(CanonicalPrefix(site, page).value, page.slug)) else None
  {
    if ctx.prefix != "" { PrefixHasItsCode(site, ctx.prefix); }
  }

  lemma NotFoundRedirects(site: Site, ctx: Context, path: string, alias: string, page: Page)
    requires ValidSite(site) && IsAliasOf(site, alias, page) && IsRoutedContext(site, ctx)
    requires AliasLookupPath(ctx, path) == alias
    ensures RenderNotFound(site, ctx, path)
         == if ctx.prefix == "" || page.languageCode == ctx.prefix
            then MovedTo(Location(CanonicalPrefix(site, page).value, page.slug)) else NotFound
  {
    AliasIsAllowedExactlyWhen(site, ctx, alias, page);
  }

  lemma OwnerIsFound(site: Site, ctx: Context, slug: string, p: Page)
    requires ValidSite(site) && Owns(site, ctx, slug, p)
    ensures BySlug(site.pages, slug, RouteLanguage(site, ctx).value) == Some(p)
  {
    BySlugFinds(site.pages, p);
  }

  lemma PageRouteRedirects(site: Site, ctx: Context, path: string, alias: string, page: Page, editor: bool)
    requires ValidSite(site) && IsAliasOf(site, alias, page) && IsRoutedContext(site, ctx)
    requires AliasLookupPath(ctx, path) == alias
    ensures ServePage(site, ctx, path, alias, editor) == MovedTo(Location(CanonicalPrefix(site, page).value, page.slug))
            <==> (forall p :: !Owns(site, ctx, alias, p)) && (ctx.prefix == "" || page.languageCode == ctx.prefix)
  {
    AliasIsAllowedExactlyWhen(site, ctx, alias, page);
    NotFoundRedirects(site, ctx, path, alias, page);
    if p :| Owns(site, ctx, alias, p) {
      OwnerIsFound(site, ctx, alias, p);
    } else if RouteLanguage(site, ctx).Some? {
      var own := BySlug(site.pages, alias, RouteLanguage(site, ctx).value);
      assert own.Some? ==> !Owns(site, ctx, alias, own.value);
    }
  }

  lemma PermanentLinkTarget(site: Site, ctx: Context, path: string, p: Page, page: Page)
    requires ValidSite(site) && IsPermanentLink(site, ctx, p)
    requires Current(site.pages, page) && CanonicalPrefix(site, page).Some?
    ensures ServePageByID(site, ctx, path, RouteOf(ctx.routePath).id)
              == MovedTo(Location(CanonicalPrefix(site, page).value, page.slug))
            <==> p == page
  {
    if Location(CanonicalPrefix(site, p).value, p.slug) == Location(CanonicalPrefix(site, page).value, page.slug) {
      CanonicalAddressIsUnique(site, p, page);
    }
  }

  lemma ByIDRouteRedirects(site: Site, ctx: Context, path: string, alias: string, page: Page)
    requires ValidSite(site) && IsAliasOf(site, alias, page) && IsRoutedContext(site, ctx)
    requires AliasLookupPath(ctx, path) == alias && RouteOf(ctx.routePath).PageByIDRoute?
    ensures ServePageByID(site, ctx, path, RouteOf(ctx.routePath).id)
              == MovedTo(Location(CanonicalPrefix(site, page).value, page.slug))
            <==> if exists p :: IsPermanentLink(site, ctx, p) then IsPermanentLink(site, ctx, page)
                 else ctx.prefix == "" || page.languageCode == ctx.prefix
  {
    var id := RouteOf(ctx.routePath).id;
    NotFoundRedirects(site, ctx, path, alias, page);
    if p :| IsPermanentLink(site, ctx, p) {
      PermanentLinkTarget(site, ctx, path, p, page);
    } else if ParseInt64(id).Some? && ByID(site.pages, ParseInt64(id).value).Some? {
      assert !IsPermanentLink(site, ctx, ByID(site.pages, ParseInt64(id).value).value);
    }
  }

  /** The context of an alias path: below a prefix, or not. */
  lemma AliasContext(site: Site, prefix: string, alias: string)
    requires ValidSite(site) && alias != "" && DefaultOf(site.languages).Some?
    requires if prefix == "" then !IsPrefix(site, FirstSegment("/" + alias)) else IsPrefix(site, prefix)
    ensures var ctx := LanguageContext(site, Location(prefix, alias));
            && ctx.prefix == prefix && IsRoutedContext(site, ctx)
            && AliasLookupPath(ctx, Location(prefix, alias)) == alias
  {
    var path := Location(prefix, alias);
    if prefix == "" {
      assert path[1..] == alias;
    } else {
      var trimmed := prefix + "/" + alias;
      assert path[1..] == trimmed && trimmed == prefix + ['/'] + alias;
      ValidIsSlashFree(prefix);
      SplitCuts(prefix, '/', alias);
      assert trimmed[|prefix| + 1..] == alias;
      assert trimmed[..|prefix| + 1] == prefix + "/";
    }
  }

  /**
   An alias path of any number of segments that nothing else takes redirects to the page's
   address exactly when it stands below no language prefix or below that of the page's
   language. A path that is taken redirects there only as the page's own permanent link.
   */
  lemma AliasRedirectsExactlyWhenAllowed(site: Site, prefix: string, alias: string, page: Page, editor: bool)
    requires ValidSite(site) && IsAliasOf(site, alias, page)
    requires if prefix == "" then !IsPrefix(site, FirstSegment("/" + alias)) else IsPrefix(site, prefix)
    ensures var path := Location(prefix, alias);
            Serve(site, path, editor) == MovedTo(Location(CanonicalPrefix(site, page).value, page.slug))
            <==> if Taken(site, path)
                 then !site.outer(path) && IsPermanentLink(site, LanguageContext(site, path), page)
                 else prefix == "" || page.languageCode == prefix
  {
    var path := Location(prefix, alias);
    var ctx := LanguageContext(site, path);
    AliasContext(site, prefix, alias);
    if !site.outer(path) {
      match RouteOf(ctx.routePath)
      case PageRoute(slug) =>
        RouteSlugIsAliasPath(site, path);
        PageRouteRedirects(site, ctx, path, alias, page, editor);
      case PageByIDRoute(id) => ByIDRouteRedirects(site, ctx, path, alias, page);
      case Unmatched => NotFoundRedirects(site, ctx, path, alias, page);
      case _ =>
    }
  }

  // ---------- Canonical addresses, exactly ----------

  /** Row `i` is the one default, and row `j` is an active, routable row for the page's language. */
  ghost predicate HasCanonicalRows(site: Site, page: Page, i: int, j: int)
  {
    && IsOnlyDefault(site.languages, i)
    && 0 <= j < |site.languages| && site.languages[j].code == page.languageCode
    && site.languages[j].isActive && IsRoutableCode(site.languages[j].code)
  }

  lemma LanguageRow(site: Site, code: string, j: int)
    requires ValidSite(site) && 0 <= j < |site.languages|
    ensures LanguageByCode(site, code) == Some(site.languages[j]) <==> site.languages[j].code == code
  {
    ByCodeIsTheTable(site.languages, code, site.languages[j]);
  }

  /**
   A page has a canonical address exactly when its slug is valid, one language is marked
   default, and its own language is active and routable; the address has that language's
   prefix unless it is the default.
   */
  lemma CanonicalPrefixExactlyWhen(site: Site, page: Page, prefix: string)
    requires ValidSite(site)
    ensures CanonicalPrefix(site, page) == Some(prefix) <==>
            IsValidSlug(page.slug)
            && exists i, j :: HasCanonicalRows(site, page, i, j) && prefix == (if i == j then "" else page.languageCode)
  {
    var rows := site.languages;
    if CanonicalPrefix(site, page) == Some(prefix) {
      var default, lang := DefaultOf(rows).value, LanguageByCode(site, page.languageCode).value;
      DefaultIsTheOnlyMarkedRow(rows, default);
      ByCodeIsTheTable(rows, page.languageCode, lang);
      var i :| IsOnlyDefault(rows, i) && rows[i] == default;
      var j :| 0 <= j < |rows| && rows[j] == lang;
      assert HasCanonicalRows(site, page, i, j);
      assert prefix == (if i == j then "" else page.languageCode) by { DistinctRows(rows, i, j); }
    }
    if IsValidSlug(page.slug) {
      if i, j :| HasCanonicalRows(site, page, i, j) && prefix == (if i == j then "" else page.languageCode) {
        DefaultIsTheOnlyMarkedRow(rows, rows[i]);
        LanguageRow(site, page.languageCode, j);
        DistinctRows(rows, i, j);
      }
    }
  }

  lemma DistinctRows(rows: seq<Language>, i: int, j: int)
    requires DistinctCodes(rows) && 0 <= i < |rows| && 0 <= j < |rows|
    ensures rows[i].code == rows[j].code <==> i == j
  {
  }

  /** Without exactly one default language no page is shown and nothing redirects. */
  lemma NothingIsServedWithoutDefault(site: Site, path: string, editor: bool)
    requires forall i :: !IsOnlyDefault(site.languages, i)
    ensures Serve(site, path, editor) == NotFound || Serve(site, path, editor) == NotAPage
    ensures LanguageContext(site, path) == Context("", None, path)
  {
    if DefaultOf(site.languages).Some? {
      DefaultIsTheOnlyMarkedRow(site.languages, DefaultOf(site.languages).value);
    }
  }

  /** A code is a language prefix exactly when it is routable and an active language has it. */
  lemma PrefixExactlyWhen(site: Site, code: string)
    requires ValidSite(site)
    ensures IsPrefix(site, code) <==>
            IsRoutableCode(code)
            && exists j :: 0 <= j < |site.languages| && site.languages[j].code == code && site.languages[j].isActive
  {
    if LanguageByCode(site, code).Some? {
      ByCodeIsTheTable(site.languages, code, LanguageByCode(site, code).value);
    }
    if j :| 0 <= j < |site.languages| && site.languages[j].code == code && site.languages[j].isActive {
      LanguageRow(site, code, j);
    }
  }

  /** A prefix alone is that language's home page. */
  lemma PrefixAloneIsHome(site: Site, code: string)
    requires IsPrefix(site, code) && DefaultOf(site.languages).Some?
    ensures RouteOf(LanguageContext(site, "/" + code).routePath) == HomeRoute
    ensures LanguageContext(site, "/" + code).prefix == code
  {
    ValidIsSlashFree(code);
    OnePart(code);
  }

  /** A language prefix never takes a path from the routes that are not pages. */
  lemma PrefixesLeaveRoutesAlone(site: Site, path: string)
    requires RouteOf(path).OtherRoute? || RouteOf(path).PageByIDRoute?
    ensures !IsPrefix(site, FirstSegment(path)) && LanguageContext(site, path).routePath == path
  {
  }

  // ---------- Pages that are shown ----------

  /** The draft is the only page with its slug. */
  lemma DraftIsFound(site: Site, page: Page)
    requires ValidStore(site.pages) && page.id in site.pages && site.pages[page.id] == page && !page.published
    ensures BySlug(site.pages, page.slug, page.languageCode) == None
    ensures DraftFor(site, page.slug, page.languageCode) == Some(page)
  {
  }

  /** The address is in the page's language: below its prefix, or at the root for the default language. */
  ghost predicate AtAddressOf(site: Site, ctx: Context, page: Page)
  {
    && RouteOf(ctx.routePath) == PageRoute(page.slug)
    && CanonicalPrefix(site, page).Some?
    && if ctx.prefix == "" then CanonicalPrefix(site, page) == Some("") else page.languageCode == ctx.prefix
  }

  lemma RouteLanguageIs(site: Site, ctx: Context, page: Page)
    requires ValidSite(site) && IsRoutedContext(site, ctx) && CanonicalPrefix(site, page).Some?
    ensures RouteLanguage(site, ctx) == Some(page.languageCode)
            <==> if ctx.prefix == "" then CanonicalPrefix(site, page) == Some("") else page.languageCode == ctx.prefix
  {
    CanonicalLanguage(site, page);
    if ctx.prefix != "" {
      PrefixHasItsCode(site, ctx.prefix);
    } else {
      DefaultIsTheOnlyMarkedRow(site.languages, DefaultOf(site.languages).value);
      ByCodeIsTheTable(site.languages, page.languageCode, DefaultOf(site.languages).value);
    }
  }

  lemma ContextIsRouted(site: Site, path: string)
    ensures IsRoutedContext(site, LanguageContext(site, path))
  {
  }

  ghost predicate IsStored(site: Site, page: Page)
  {
    page.id in site.pages && site.pages[page.id] == page
  }

  lemma ShownIsStored(site: Site, ctx: Context, path: string, slug: string, page: Page, editor: bool)
    requires ValidSite(site) && ServePage(site, ctx, path, slug, editor) == Rendered(page)
    ensures IsStored(site, page) && page.slug == slug && CanonicalPrefix(site, page).Some?
    ensures RouteLanguage(site, ctx) == Some(page.languageCode)
    ensures page.published || (editor && RedirectPageAlias(site, ctx, slug) == None)
  {
  }

  lemma StoredIsShown(site: Site, ctx: Context, path: string, page: Page, editor: bool)
    requires ValidSite(site) && IsStored(site, page) && CanonicalPrefix(site, page).Some?
    requires RouteLanguage(site, ctx) == Some(page.languageCode)
    requires page.published || (editor && RedirectPageAlias(site, ctx, page.slug) == None)
    ensures ServePage(site, ctx, path, page.slug, editor) == Rendered(page)
  {
    if page.published { BySlugFinds(site.pages, page); } else { DraftIsFound(site, page); }
  }

  /**
   A page is shown exactly at the addresses of its slug in its own language; a draft only to
   an editor, and only if no alias takes its slug.
   */
  lemma PageIsShownExactlyWhen(site: Site, path: string, page: Page, editor: bool)
    requires ValidSite(site)
    ensures var ctx := LanguageContext(site, path);
            Serve(site, path, editor) == Rendered(page) <==>
            && !site.outer(path) && AtAddressOf(site, ctx, page) && IsStored(site, page)
            && (page.published || (editor && RedirectPageAlias(site, ctx, page.slug) == None))
  {
    var ctx := LanguageContext(site, path);
    ContextIsRouted(site, path);
    if Serve(site, path, editor) == Rendered(page) {
      ShownIsStored(site, ctx, path, RouteOf(ctx.routePath).slug, page, editor);
      RouteLanguageIs(site, ctx, page);
    } else if AtAddressOf(site, ctx, page) && IsStored(site, page)
              && (page.published || (editor && RedirectPageAlias(site, ctx, page.slug) == None)) {
      RouteLanguageIs(site, ctx, page);
      StoredIsShown(site, ctx, path, page, editor);
    }
  }

  lemma ServedPageIsOfTheRoute(site: Site, ctx: Context, path: string, slug: string, editor: bool)
    requires ServePage(site, ctx, path, slug, editor).Rendered?
    ensures var page := ServePage(site, ctx, path, slug, editor).page;
            && RouteLanguage(site, ctx) == Some(page.languageCode)
            && page.slug == slug && (page.published || editor)
  {
  }

  /** A page is only ever shown at an address of its own language. */
  lemma RenderedPageOwnsItsAddress(site: Site, path: string, editor: bool)
    requires ValidSite(site) && Serve(site, path, editor).Rendered?
    ensures var page, ctx := Serve(site, path, editor).page, LanguageContext(site, path);
            && RouteLanguage(site, ctx) == Some(page.languageCode)
            && RouteOf(ctx.routePath) == PageRoute(page.slug)
            && (page.published || editor)
  {
    var ctx := LanguageContext(site, path);
    if RouteOf(ctx.routePath).PageRoute? {
      ServedPageIsOfTheRoute(site, ctx, path, RouteOf(ctx.routePath).slug, editor);
    }
  }
}
