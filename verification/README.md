# Verified model of oCMS

This project models, in Dafny 4.11, the deterministic core of oCMS: the checks on the
session secret, the in-memory caches, the CSV export of form submissions, the encoded
password hashes, and the frontend logic that strips search snippets, builds page links and
resolves page addresses. `dafny verify dfyconfig.toml` checks all of it.

| file | what it models |
|---|---|
| `SecretStrength.dfy` | `isRepeatedPattern`, `countDistinctChars` and the secret checks of `Load` |
| `LoadOnce.dfy` | the double-checked loading protocol of `ConfigCache` and `LanguageCache`, interleaved |
| `ConfigCache.dfy`, `LanguageCache.dfy` | the two caches as objects, and what their lookups mean in every interleaving |
| `CacheContext.dfy`, `PageCache.dfy` | page keys, and the page cache as an object |
| `SlugInvalidation.dfy`, `SlugClearing.dfy` | what `InvalidateBySlug` achieves, and exactly when |
| `PageCacheRuns.dfy`, `PageInterleavings.dfy` | sequential and interleaved runs of the page cache |
| `TranslationCache.dfy` | the bounded translation cache |
| `MemoryCache.dfy` | the TTL cache with lazy deletion and a byte counter |
| `CsvExport.dfy` | the submissions export and a reader for section 2 of RFC 4180 |
| `PasswordHash.dfy`, `Base64.dfy` | the Argon2id record and its unpadded base64 fields (section 4 of RFC 4648) |
| `MarkStripper.dfy` | `stripHTMLPreserveMark` |
| `Pagination.dfy` | the page-link window |
| `PageRouting.dfy` | the language prefix, routes, page, page-id and alias handlers |
| `Common.dfy`, `Text.dfy`, `MapSums.dfy` | result types, decimal text and splitting, sums over maps |

How to read the contracts. A method that changes an object is tied to a function of the old
state; what that function is good for is proved beside it. Database answers, clock readings,
random bytes, the Argon2 function and the arbitrary order of Go maps are parameters or
nondeterministic choices, so every theorem holds for all of them.

Where the code and its comments differ, the model follows the code:

- `ensureCapacity` is described as clearing half the cache. Its loop limit shrinks as it
  deletes, so it removes a third of each type and one entry more. That is half of a type
  exactly when it holds at most four entries, or six; of five, three are left.
- `ConfigCache.Get` returns an empty answer for an existing key when an `Invalidate` falls
  between its load and its second read. `AnswerIsRightExactlyWhenHit` gives the exact
  condition, and `DisturbedCallCanReadNothing` a run.
- `InvalidateBySlug` is described as removing all variants of a page. `ClearedExactlyWhenSettled`
  says exactly when none with the slug is left: when all id entries with the slug are of the one
  page, with a positive id, that the scan settled on. It goes wrong in three ways. A slug that holds a colon can leave a variant and delete
  the reverse index that lists it (`SlugIsSafeExactlyWhenColonFree`,
  `DropsAreTransparentExactlyWhenColonFree`). A slug that is a page number can go unnoticed,
  because the id key of page 5 is the slug key of a page with slug "5"; over runs whose earlier
  slug scans covered their pages no other slug is left uncleared
  (`SlugIsClearedExactlyWhenNoPageNumber`). And after an earlier scan that missed a variant, any
  colon-free slug can be found under a stale entry of another page (`UncoveredRunMisleads`).
- The page cache queries outside its lock. `InterleavingAgreesExactlyWhenTimely` says exactly
  when an interleaved run still agrees with the database.
- `buildPaginationPages` is well formed except within two of the ends of the integer range,
  where its window arithmetic wraps.

## Model

| member | source | states |
|---|---|---|
| SecretStrength.IsRepeatedPattern | internal/config/config.go:267-285 | true exactly when some block of at most half the length repeats to fill the secret; the period it computes is the least one; the inner loop runs at most n − 1 times over the whole scan |
| SecretStrength.LongestBorderIsLeastPeriod | internal/config/config.go:283-284 | a border is the longest exactly when the length minus it is the least period |
| SecretStrength.FallbackSkipsNothing | internal/config/config.go:274-276 | one step to the failure entry of a border keeps a border and skips no candidate for the next one |
| SecretStrength.NextLongestBorder | internal/config/config.go:277-280 | when the fallbacks stop, the candidate plus the match is the longest border of the longer prefix |
| SecretStrength.PeriodIsRepeatedBlock | internal/config/config.go:260-266 | a period is the same as a first block written over and over, the last copy possibly cut short |
| SecretStrength.CountDistinctChars | internal/config/config.go:248-258 | the result is the number of different bytes in the secret |
| SecretStrength.CheckSessionSecret | internal/config/config.go:202-240 | accepted exactly when of at least 32 bytes, not a known default and, in production, with at least 8 different bytes and no period of at most half its length; otherwise the first failing check names the error |
| LoadOnce.StepKeepsInv | internal/cache/config.go:39-171 | every critical section, database write and invalidation keeps the protocol invariant |
| LoadOnce.EveryAnswerIsExact | internal/cache/config.go:39-137 | in every interleaving a loaded read is one database version no older than the last `Invalidate` before the call; an unloaded read is empty and was disturbed by an `Invalidate` |
| LoadOnce.UndisturbedCallReadsDatabase | internal/cache/config.go:39-137 | a call no `Invalidate` overlaps answers with exactly one recent database version |
| LoadOnce.AnswerIsRightExactlyWhenHit | internal/cache/config.go:39-66 | an answer is the content of a database version of its window exactly when the cache was loaded at its last read or such a version was empty |
| LoadOnce.WriteThenInvalidateIsSeen | internal/cache/config.go:164-171 | whatever loads and calls are under way when an `Invalidate` happens, a call that was not running answers with a version no older than the last write before it, or with no rows if disturbed again |
| LoadOnce.LoadsAreBounded | internal/cache/config.go:139-162 | successful loads never exceed invalidations by more than one |
| LoadOnce.LoneCallIsTheMethod | internal/cache/config.go:39-66 | a call that runs alone answers from a loaded cache at once, and otherwise loads the database's rows and answers with them |
| LoadOnce.DisturbedCallCanReadNothing | internal/cache/config.go:53-65 | a run in which an existing key is answered as absent |
| ConfigCaching.ByKeyIsTheTable | internal/cache/config.go:154-157 | with distinct keys the filled map holds a row under a key exactly when it is that key's row |
| ConfigCaching.FoundConfigsComeFromOneVersion | internal/cache/config.go:99-137 | all rows found by one call of any interleaving are rows of a single database version in its window |
| ConfigCaching.AbsentConfigWasAbsent | internal/cache/config.go:39-66 | a key reported absent by an undisturbed call was absent from that version |
| ConfigCaching.ConfigCache.LoadAll | internal/cache/config.go:139-162 | the double check, then the map of the queried rows; a failed query changes nothing |
| ConfigCaching.ConfigCache.Get | internal/cache/config.go:39-66 | the value of the key's row, or the empty string if no row has the key; an error only when the load failed |
| ConfigCaching.ValueIsOfTheRow | internal/cache/config.go:39-66 | the value answered is the `value` column of the key's row |
| ConfigCaching.ConfigCache.GetConfig | internal/cache/config.go:69-97 | found with a row exactly when that is the table's row for the key |
| ConfigCaching.ConfigCache.GetMultiple | internal/cache/config.go:100-118 | exactly the requested keys that have a row, each with its row's value |
| ConfigCaching.ConfigCache.All | internal/cache/config.go:121-137 | exactly the keys of the rows, each with its row's value |
| ConfigCaching.ConfigCache.Invalidate | internal/cache/config.go:164-171 | the cache is as newly made |
| LanguageCaching.ActiveOnlyKeepsOrder | internal/cache/languages.go:174-178 | the active list is the order-preserving filter of all languages |
| LanguageCaching.DefaultIsTheOnlyMarkedRow | internal/cache/languages.go:179-186 | a default is present exactly when one row is marked, and it is that row |
| LanguageCaching.ByCodeIsTheTable | internal/cache/languages.go:174-175 | with distinct codes the index holds a row under a code exactly when it is that code's row |
| LanguageCaching.DefaultWasInDatabase | internal/cache/languages.go:105-133 | a default answered in any interleaving is the one marked row of a database version in the call's window |
| LanguageCaching.LanguageCache.LoadAll | internal/cache/languages.go:153-192 | all derived fields agree with the queried rows |
| LanguageCaching.LanguageCache.GetActive | internal/cache/languages.go:37-72 | the active languages of the row list |
| LanguageCaching.LanguageCache.GetByCode | internal/cache/languages.go:75-102 | found with a row exactly when that is the table's row for the code |
| LanguageCaching.LanguageCache.GetDefault | internal/cache/languages.go:105-133 | present exactly when one row of the list is marked, and it is that row |
| LanguageCaching.LanguageCache.Invalidate | internal/cache/languages.go:194-204 | the cache is as newly made |
| Text.NoLeadingZero | internal/cache/context.go:26-30 | the decimal form of an id has no leading zero |
| CacheContext.KeyParts | internal/cache/context.go:20-30 | a key splits at its colons into language, role and slug, or id |
| CacheContext.PageKeyInjective | internal/cache/context.go:20-24 | with colon-free codes and roles a key names one context and one slug |
| CacheContext.PageIDKeyInjective | internal/cache/context.go:26-30 | likewise for ids |
| CacheContext.ColonInRoleMixesKeys | internal/cache/context.go:20-24 | a colon in a role makes two contexts share a key |
| CacheContext.SlugSuffixOfKey | internal/cache/pages.go:166-171 | the suffix test with a colon-free slug looks at the slug part of the key only |
| CacheContext.IDSuffixOfKey | internal/cache/pages.go:179-185 | the id suffix test matches exactly the keys of that id |
| PageCaching.SlugEntryIsOfItsKey | internal/cache/pages.go:111-133 | an entry under language:role:slug is a page of that language with that slug |
| PageCaching.IDEntryIsOfItsKey | internal/cache/pages.go:111-133 | an entry under language:role:id is the page with that id |
| PageCaching.StoredPageIsFound | internal/cache/pages.go:57-63 | a stored page is a cache hit for its own language and slug and for its id |
| PageCaching.LookupIsRemembered | internal/cache/pages.go:53-109 | what a lookup found is a hit for the next one, whatever the database says by then; a lookup that found nothing changes nothing |
| PageCaching.StoreKeepsOtherEntries | internal/cache/pages.go:119-130 | storing a page replaces what its two keys held and nothing else |
| PageCaching.PreloadedKeys | internal/cache/pages.go:218-243 | after `Preload` the hits are those there were and the listed pages of the context's language |
| PageCaching.StoreKeepsListed | internal/cache/pages.go:126-130 | storing keeps every entry listed in the reverse index |
| PageCaching.InvalidatePageClears | internal/cache/pages.go:135-154 | no variant of the page is left in either index, and the rest stays listed |
| PageCaching.PageCache.GetBySlug | internal/cache/pages.go:53-82 | hit, miss, absent row and missing language, each with the new state |
| PageCaching.PageCache.GetByID | internal/cache/pages.go:86-109 | hit, miss and absent row, each with the new state |
| PageCaching.PageCache.Store | internal/cache/pages.go:119-133 | the page under its own language's slug key and the caller's id key, both listed |
| PageCaching.PageCache.InvalidatePage | internal/cache/pages.go:137-154 | every listed key leaves both indexes |
| PageCaching.PageCache.InvalidateBySlug | internal/cache/pages.go:158-188 | matching slug entries go, and the id entries and reverse index of the page the scan ended on |
| PageCaching.PageCache.Preload | internal/cache/pages.go:218-243 | pages of the context's language are stored, others skipped |
| SlugInvalidation.ListedExactlyWhenCovered | internal/cache/pages.go:156-188 | the reverse index stays complete exactly when the scan matched every variant of the page it settled on |
| SlugInvalidation.InvalidateBySlugClears | internal/cache/pages.go:156-188 | with a colon-free slug and entries of one store, the page the scan settles on loses every entry and the rest stays listed |
| SlugInvalidation.SlugIsSafeExactlyWhenColonFree | internal/cache/pages.go:156-188 | the reverse index stays complete in every coherent cache exactly when the slug holds no colon |
| SlugInvalidation.ScanSettlesOnTheSlug | internal/cache/pages.go:166-171 | with valid slugs and positive ids, a scan that matches anything settles on the page whose slug ends the given one |
| SlugInvalidation.ClearedExactlyWhenSettled | internal/cache/pages.go:156-188 | in any cache, no variant of the slug is left in either index exactly when all its id entries are of the one page, with a positive id, that the scan settled on |
| SlugInvalidation.ClearedExactlyWhenMatched | internal/cache/pages.go:156-188 | in a coherent cache, with valid slugs and positive ids, no variant of the slug is left in either index exactly when the scan matched or the id index held none |
| PageCacheRuns.CacheIsTransparent | internal/cache/pages.go:44-243 | in every sequential run with writes followed by their invalidation, and slug scans that cover their page, all lookups answer as the database alone would |
| PageCacheRuns.DropIsTransparentExactlyWhenCovered | internal/cache/pages.go:156-188 | from any coherent state over pages that name their language, an `InvalidateBySlug` is harmless to every later run whose own slug scans cover their pages, exactly when its scan covers its page |
| PageCacheRuns.DropsAreTransparentExactlyWhenColonFree | internal/cache/pages.go:156-188 | invalidating a slug is harmless in every sequential run exactly when the slug holds no colon |
| PageCacheRuns.WritePageKeepsCoherent | internal/cache/pages.go:135-154 | after a write to one page and `InvalidatePage`, what is left agrees with the new store |
| SlugClearing.SlugIsClearedExactlyWhenNoPageNumber | internal/cache/pages.go:135-188 | after every sequential run over valid slugs and positive ids in which earlier slug scans covered their pages, `InvalidateBySlug` leaves no variant of its slug, exactly when the slug is not a page number |
| SlugClearing.UncoveredRunMisleads | internal/cache/pages.go:156-188 | for every colon-free slug there is a run with one uncovered scan after which `InvalidateBySlug` settles on another page and leaves a variant |
| SlugClearing.SharedKey | internal/cache/context.go:20-30 | two pages share a key only when the slug of one is the id of the other |
| SlugClearing.InvalidatePageKeepsOthers | internal/cache/pages.go:135-154 | `InvalidatePage` leaves the entries of all other pages, but for keys shared between a slug and an equal page number |
| PageInterleavings.UninterruptedLookupIsTheMethod | internal/cache/pages.go:53-109 | the steps of a lookup that nothing interrupts do what the method does |
| PageInterleavings.LookupsNeverCrossLanguages | internal/cache/pages.go:44-133 | in every interleaving a slug lookup is only served a page of its language and slug, an id lookup the page with its id |
| PageInterleavings.EventKeepsOrderExactlyWhenTimely | internal/cache/pages.go:67-188 | one event keeps every entry the database's row or awaiting invalidation, and listed, exactly when the row it stores still is or its slug scan covers its page |
| PageInterleavings.InterleavingAgreesExactlyWhenTimely | internal/cache/pages.go:44-243 | an interleaved run is in that order at every point exactly when all its events are timely |
| PageInterleavings.TimelyLookupsAreRight | internal/cache/pages.go:53-109 | in a timely run every lookup is served what the database answers at that moment, or a page awaiting invalidation |
| PageInterleavings.UndisturbedLookupsAgree | internal/cache/pages.go:67-81 | it is enough that no write to a page falls between a lookup's query and store, unless the page still awaits invalidation, and that slugs are dropped without colons and for pages that do not await invalidation |
| PageInterleavings.InterleavingCanCacheADeletedPage | internal/cache/pages.go:67-81 | an interleaving that stores a page after its deletion was invalidated |
| TranslationCaching.TranslationCache.EvictSome | internal/cache/translations.go:205-213 | from a type with n entries exactly n/3 + 1 go, in any order |
| TranslationCaching.TranslationCache.EnsureCapacity | internal/cache/translations.go:195-219 | below the limit nothing changes; otherwise each type loses a third and one more, and empty types go |
| TranslationCaching.HalfIsClearedExactlyWhenFew | internal/cache/translations.go:203-218 | eviction clears half of a type exactly when it holds at most four entries, or six |
| TranslationCaching.EvictionShrinks | internal/cache/translations.go:203-218 | at most two thirds of all entries are left |
| TranslationCaching.RunStaysInBound | internal/cache/translations.go:119-219 | no run of loads of at most B ids exceeds max(maxEntries − 1 + B, 3B) entries |
| TranslationCaching.MapOfLinksMembers | internal/cache/translations.go:128-135 | the map built for an entity links exactly the languages listed, each to its last member |
| TranslationCaching.DistinctMembersAreLinked | internal/cache/translations.go:128-135 | with one member per language it links each listed member and no other |
| TranslationCaching.RunStaysCoherent | internal/cache/translations.go:119-242 | in every run with link writes followed by `InvalidateType`, every cached map is the one built from the stored members |
| TranslationCaching.AnswersAreTheLinks | internal/cache/translations.go:49-117 | in every state of every run an answer links exactly the languages of the entity's stored members, each to its last one |
| TranslationCaching.LoadCaches | internal/cache/translations.go:119-219 | what was loaded is cached with its links, and below the limit nothing else is lost |
| TranslationCaching.FetchIsStep | internal/cache/translations.go:51-117 | a `Get` or `GetBatch` is at most one step of such a run, loading no more ids than it was given |
| TranslationCaching.AddMembersTwice | internal/cache/translations.go:160-176 | loading a repeated id again changes nothing |
| TranslationCaching.TranslationCache.LoadEntity | internal/cache/translations.go:119-147 | the map of the queried members, stored after eviction; a failed query changes nothing |
| TranslationCaching.TranslationCache.LoadBatch | internal/cache/translations.go:149-193 | the maps of exactly the given ids, stored after eviction; fails when one query fails |
| TranslationCaching.TranslationCache.Get | internal/cache/translations.go:49-70 | the cached map or the queried one; a miss is stored after eviction, a hit or a failed query changes nothing |
| TranslationCaching.TranslationCache.GetBatch | internal/cache/translations.go:84-117 | the keys are exactly the ids, repeated or cached, each with what `Get` answers in that state; exactly the missing ids are stored, after eviction |
| TranslationCaching.TranslationCache.InvalidateEntity | internal/cache/translations.go:221-228 | the entity's map goes, its type stays |
| MemoryCaching.MemoryCache.Get | internal/cache/memory.go:69-93 | the value until it expires; an expired entry is deleted and its bytes uncounted |
| MemoryCaching.MemoryCache.Has | internal/cache/memory.go:163-181 | whether an unexpired entry is present |
| MemoryCaching.MemoryCache.Set | internal/cache/memory.go:95-134 | at capacity the expired entries go, and the new entry is stored with its lifetime in any case; the byte count follows |
| MemoryCaching.MemoryCache.Delete | internal/cache/memory.go:136-147 | the key goes with its bytes |
| MemoryCaching.MemoryCache.Clear | internal/cache/memory.go:149-161 | everything goes and the count is zero |
| MemoryCaching.MemoryCache.DeleteByPrefix | internal/cache/memory.go:219-234 | exactly the keys with the prefix go, with their bytes |
| MemoryCaching.MemoryCache.RemoveExpired | internal/cache/memory.go:263-273 | exactly the expired entries go, with their bytes |
| MemoryCaching.MemoryCache.DeleteEntry | internal/cache/memory.go:256-261 | the byte count stays the sum of the stored lengths |
| MemoryCaching.OperationsShowWhatWasAsked | internal/cache/memory.go:69-181 | a stored value shows for its lifetime, a deleted one never, and everything else shows on |
| MemoryCaching.StoredValueIsAnswered | internal/cache/memory.go:69-181 | in an open cache, over every run that leaves the key alone, `Has` answers true and `Get` the value for exactly the lifetime, and false and a miss from then on |
| MemoryCaching.NeverStoredIsMissing | internal/cache/memory.go:69-181 | a key that no run stored is answered false and a miss |
| MemoryCaching.DeletedIsMissing | internal/cache/memory.go:136-161 | so is one that was deleted, by itself, by prefix or with all others |
| MemoryCaching.ClosedIsForever | internal/cache/memory.go:69-181 | after `Close` every operation is refused, over every run |
| MemoryCaching.OpenAccepts | internal/cache/memory.go:95-161 | an open cache refuses nothing |
| MemoryCaching.LastAnswer | internal/cache/memory.go:69-181 | the answers of a run are those of the states its operations meet |
| MemoryCaching.MemoryAfter | internal/cache/memory.go:104-113 | entries leave memory exactly by deletion, by a lookup or tick that finds them expired, and expired ones by `Set` at capacity |
| MemoryCaching.StepRefines | internal/cache/memory.go:69-181 | each operation answers as on a map that never drops expired entries |
| MemoryCaching.CleanupIsInvisible | internal/cache/memory.go:104-113 | two runs of the same calls answer the same, whatever their cleanup ticks and capacities |
| MemoryCaching.SweepShowsExactlyWhenBackward | internal/cache/memory.go:263-273 | removing expired entries changes what a key shows exactly when it finds the entry expired and the key is read at an earlier instant at which it was not |
| MemoryCaching.BackwardClockShowsCleanup | internal/cache/memory.go:263-273 | with a clock that runs backwards a cleanup tick can be seen |
| CsvExport.EscapeCSVRow | internal/handler/forms.go:1840-1854 | the row's cells neutralised, quotes doubled, quoted where needed, joined by commas |
| CsvExport.ExportSubmissions | internal/handler/forms.go:1791-1830 | reading the document back gives the fixed titles and field labels, then for each submission its id, date, address, read flag and, under each field's label, what it holds under the field's name, or an empty cell; all neutralised |
| CsvExport.CellReadsBack | internal/handler/forms.go:1843-1852 | a printed cell followed by a separator reads back as the neutralised cell |
| CsvExport.CellIsQuotedExactlyWhenSpecial | internal/handler/forms.go:1845-1850 | a cell is printed in quotes exactly when it holds a comma, a quote, CR or LF |
| CsvExport.DocumentReadsBack | internal/handler/forms.go:1794-1830 | an RFC 4180 reader inverts the printer on whole documents, whatever commas, quotes, CR and LF the cells hold, exactly when no row is empty; an empty row reads as one empty cell |
| CsvExport.DocumentIsUnambiguous | internal/handler/forms.go:1840-1854 | tables print alike exactly when they agree after neutralising, an empty row counting as one empty cell |
| CsvExport.NeutralizeFormulaExactlyWhen | internal/handler/forms.go:1856-1865 | a quote is put in front exactly of cells whose first character other than space and tab is one of =, +, - and @; all others stay |
| CsvExport.NeutralizedIsInert | internal/handler/forms.go:1856-1865 | no exported cell starts a formula, even behind spaces and tabs, and neutralising is idempotent |
| CsvExport.NeutralizeCollisions | internal/handler/forms.go:1856-1865 | the only cells that neutralise alike are a formula and the same text with a quote in front |
| Base64.DecodeInvertsEncode | internal/auth/password.go:54-55 | decoding an encoding gives back the bytes |
| Base64.EncodeIsFree | internal/auth/password.go:54-58 | an encoding holds no field separator |
| Base64.CharIsOfTheAlphabet | internal/auth/password.go:54-55 | the characters are those of table 1 of RFC 4648, in its order |
| Base64.GroupIsTheNumber | internal/auth/password.go:54-55 | three bytes and their four sextets write the same number, most significant first |
| Base64.EncodeIsGroups | internal/auth/password.go:54-55 | an encoding is its groups of four characters and a short last one without padding |
| Base64.ForeignCharacterIsRefused | internal/auth/password.go:84-92 | a character that is neither of the alphabet nor a line break is an error |
| Base64.DecodeDropsSpareBits | internal/auth/password.go:84-92 | two texts decode to the same bytes exactly when, line breaks left out, they differ only in the spare bits of a short last group |
| Base64.LineBreaksAreIgnored | internal/auth/password.go:84-92 | a line break anywhere in a text does not change what is read |
| PasswordHash.EncodedSplits | internal/auth/password.go:57-65 | a printed record splits into exactly its six fields |
| PasswordHash.EncodedReadsBack | internal/auth/password.go:57-92 | a printed record parses back to its version, parameters, salt and digest |
| PasswordHash.HashVerifies | internal/auth/password.go:46-96 | a fresh hash accepts its own input, and another one exactly when it derives the same key |
| PasswordHash.HashText | internal/auth/password.go:44-59 | the fields of a fresh hash are argon2id, v=19, m=19456,t=2,p=1, the salt and the derived 32-byte key |
| PasswordHash.VerifyUsesTheRecord | internal/auth/password.go:63-96 | verification derives with the record's own time, memory, threads, salt and key length, whatever its version |
| PasswordHash.ErrorIsTheFirst | internal/auth/password.go:63-92 | the first thing that cannot be read decides the error; five separators are needed |
| PasswordHash.RehashUnlessCurrent | internal/auth/password.go:29-42 | a string needs a rehash unless it has six fields, the type argon2id and exactly the current parameters |
| PasswordHash.ScanUintRefuses | internal/auth/password.go:35-37 | a parameter that does not fit its type is an error |
| PasswordHash.ScanSkipsBlanks | internal/auth/password.go:35-37 | blanks before a number are skipped, a newline is an error |
| PasswordHash.ParamsIgnoreTail | internal/auth/password.go:35-37 | what follows the last parameter is ignored |
| PasswordHash.SignedVersionReadsBack | internal/auth/password.go:73-76 | any 64-bit version is read |
| PasswordHash.RehashDecidesTheParamsUsed | internal/auth/password.go:29-42 | on any readable string a rehash is needed exactly when verification would not use the current parameters |
| PasswordHash.RehashMeansOtherParams | internal/auth/password.go:29-42 | a printed record needs a rehash exactly when m, t or p is not the current one |
| PasswordHash.FreshHashIsCurrent | internal/auth/password.go:27-59 | a fresh hash needs no rehash |
| PasswordHash.EncodedInjective | internal/auth/password.go:57-58 | distinct records print distinct strings |
| PasswordHash.ParamsReadBack | internal/auth/password.go:35-37 | the scanned parameters are the printed ones, in their places |
| MarkStripper.StripHTMLPreserveMark | internal/handler/frontend.go:2216-2280 | terminates with the stripped text, of which the next rows speak |
| MarkStripper.TagEndsAtClose | internal/handler/frontend.go:2231-2251 | the prefix tests of the loop agree with reading the tag up to its first closing bracket |
| MarkStripper.OutputHoldsOnlyKnownTags | internal/handler/frontend.go:2213-2215 | every opening bracket of the output starts `<mark>`, `</mark>` or `<br>` |
| MarkStripper.OutputKeepsTextMarksAndLines | internal/handler/frontend.go:2213-2280 | for a snippet in which every closing bracket follows an opening one, the output's lines are the input's lines, trimmed and without empty ones: all characters outside tags and all highlight tags in order, lines ending at line breaks and at block tags in any letter case |
| MarkStripper.LeadingFragmentIsDropped | internal/handler/frontend.go:2217-2220 | a snippet that starts inside a tag loses the rest of that tag and nothing else |
| MarkStripper.BlockTagEndsLine | internal/handler/frontend.go:2222-2251 | the tags that end a line are the thirteen listed, in any letter case |
| MarkStripper.OutputHoldsNoLineBreak | internal/handler/frontend.go:2263-2275 | the lines of the output are separated by `<br>` only |
| Pagination.BuildPaginationPages | internal/handler/frontend.go:2915-2954 | the links before, in and after the window |
| Pagination.LinksAreWellFormed | internal/handler/frontend.go:2915-2954 | at most nine entries from 1 to the total around a run of min(5, total) pages that starts two before the current page as far as the ends allow, each with its address, an ellipsis exactly where pages are skipped; this holds exactly when the window does not wrap |
| Pagination.NumbersIncrease | internal/handler/frontend.go:2932-2953 | page numbers increase strictly, across ellipses too |
| Pagination.CurrentIsFlaggedOnce | internal/handler/frontend.go:2940-2943 | the current page is flagged exactly once when in range and never otherwise |
| Pagination.PagesHoldTheItems | internal/handler/frontend.go:2958-2962 | the page count holds every item and no page more, exactly when the sum does not wrap |
| Pagination.FewItemsAreOnePage | internal/handler/frontend.go:2958-2962 | up to ten items, and sums that wrap, are one page |
| Pagination.PageURLAddsParameter | internal/handler/frontend.go:2976-2981 | a page's address has the base's path and parameters, and `page` as the last one |
| Pagination.PageURLInjective | internal/handler/frontend.go:2976-2981 | different pages have different addresses |
| Pagination.BuildPagination | internal/handler/frontend.go:2957-3003 | the neighbours' and ends' addresses where they exist, and well-formed links for every page number that does not wrap |
| PageRouting.RedirectIsCanonical | internal/handler/frontend.go:3256-3338 | every redirect goes to the canonical address of a published page |
| PageRouting.RedirectReachesItsPage | internal/handler/frontend.go:865-932 | the target of a redirect shows that same page, without another redirect, exactly when no route or language prefix shadows it |
| PageRouting.DefaultAddressIsServed | internal/handler/frontend.go:879-899 | the unprefixed address of a default-language page shows it exactly when not shadowed |
| PageRouting.PrefixedAddressIsServed | internal/middleware/language.go:96-108 | the prefixed address of another language's page shows it exactly when not shadowed |
| PageRouting.PermanentLinkRedirects | internal/handler/frontend.go:1121-1164 | `/page/{id}` of a page with a canonical address redirects there |
| PageRouting.AliasRedirectsExactlyWhenAllowed | internal/handler/frontend.go:3102-3320 | an alias path of any length that nothing else takes redirects to its page's address exactly when it has no language prefix or that of the page's language; a path that is taken does so only as the page's permanent link |
| PageRouting.CanonicalPrefixExactlyWhen | internal/handler/frontend.go:3271-3297 | a page has a canonical address exactly when its slug is valid, one language is the default, and its own language is active and routable; the prefix is empty exactly for the default language |
| PageRouting.PageIsShownExactlyWhen | internal/handler/frontend.go:865-932 | a page is shown exactly at the addresses of its slug in its own language; a draft only to an editor and if no alias takes its slug |
| PageRouting.NothingIsServedWithoutDefault | internal/handler/frontend.go:3278-3284 | without exactly one default language no page is shown and nothing redirects |
| PageRouting.PrefixExactlyWhen | internal/middleware/language.go:161-176 | a code is a language prefix exactly when it is routable and an active language has it |
| PageRouting.PrefixAloneIsHome | internal/middleware/language.go:180-196 | a prefix alone is that language's home page |
| PageRouting.PrefixesLeaveRoutesAlone | internal/util/slug.go:110-124 | a language prefix never takes a path of the other routes |
| PageRouting.OneSegmentRoutes | cmd/ocms/main.go:111-117 | the home page and the one-segment paths |
| PageRouting.PageIDRoute | cmd/ocms/main.go:116 | the permanent links |
| PageRouting.ListRoutes | cmd/ocms/main.go:114-120 | category, tag and form paths |
| PageRouting.HyphenatedIsWords | internal/util/slug.go:57-80 | a valid slug is lower-case alphanumeric words joined by single hyphens |
| PageRouting.LangCodeIsWords | internal/util/slug.go:85-108 | a valid language code is two to ten characters of such words |
| PageRouting.ParseInt64ExactlyWhen | internal/handler/frontend.go:1125-1130 | ids are decimal numbers with an optional sign that fit into 64 bits |
| PageRouting.CanonicalAddressIsUnique | internal/handler/frontend.go:3256-3338 | pages with the same canonical address are the same page |
| PageRouting.RenderedPageOwnsItsAddress | internal/handler/frontend.go:873-923 | a page is only shown at an address of its own language and slug, and a draft only to an editor |

## Left out

- HTTP plumbing, templates, sessions, logging, the Redis client, statistics counters and the menu cache: I/O, opaque libraries or easy members.
- SQL text: the queries are functions of tables; `ListTranslationComponentMembers` is any function of entity type and id.
- Argon2 and randomness: Argon2 is an arbitrary function, including for parameters on which the library refuses to run; the salt is a parameter.
- ConfigCaching.ConfigCache.Get: the object's methods run without interruption; interleaving is the subject of `LoadOnce`, whose steps are the same critical sections.
- PageCaching.PageCache.GetBySlug: cached pages are values, so sharing of a cached row by pointer is not modelled; the page cache never changes a row.
- TranslationCaching.TranslationCache.GetBatch: maps are values, so a caller changing a returned map is not modelled; loads between the query and the lock are taken as one step.
- MemoryCaching.MemoryCache.Set: one operation at a time; under races the byte counter is not exact, and its 64-bit range is not modelled.
- CsvExport.ExportSubmissions: rendering of dates and of JSON values is not modelled; they come as text. The limit of 100000 submissions is part of the query.
- MarkStripper.StripHTMLPreserveMark: text is a sequence of Unicode characters; invalid UTF-8 is not modelled. The tags compared are ASCII, for which lower-casing byte by byte is exact.
- PasswordHash.HashVerifies: the comparison's constant running time is not modelled.
- Pagination.BuildPaginationPages: totals below 1 and the largest integer are not modelled; both callers raise the total to at least 1, and no item count divides to the largest integer.
- PageRouting.RedirectReachesItsPage: redirect rules and trailing slashes handled before the frontend router, category, tag, form and Markdown responses are not modelled; pages are read from the store, which `CacheIsTransparent` justifies for the page cache.
- The character-class warning for secrets in development: it only logs.
