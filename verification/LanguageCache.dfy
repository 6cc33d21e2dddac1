/** `LanguageCache` of `internal/cache/languages.go`: the language table and its indexes. */
module LanguageCaching {
  import opened Common
  import opened LoadOnce

  /** A row of the `languages` table; `id` and `code` are unique. */
  datatype Language = Language(id: int, code: string, isDefault: bool, isActive: bool)

  datatype LoadError = QueryFailed

  // ---------- The fields derived from the rows ----------

  function ActiveOnly(rows: seq<Language>): seq<Language>
  {
    if rows == [] then [] else
      var last := rows[|rows| - 1];
      ActiveOnly(rows[..|rows| - 1]) + (if last.isActive then [last] else [])
  }

  function ByCode(rows: seq<Language>): map<string, Language>
  {
    if rows == [] then map[] else
      var last := rows[|rows| - 1];
      ByCode(rows[..|rows| - 1])[last.code := last]
  }

  function DefaultCount(rows: seq<Language>): nat
  {
    if rows == [] then 0 else
      DefaultCount(rows[..|rows| - 1]) + (if rows[|rows| - 1].isDefault then 1 else 0)
  }

  function LastDefault(rows: seq<Language>): Option<Language>
  {
    if rows == [] then None
    else if rows[|rows| - 1].isDefault then Some(rows[|rows| - 1])
    else LastDefault(rows[..|rows| - 1])
  }

  function DefaultOf(rows: seq<Language>): Option<Language>
  {
    if DefaultCount(rows) == 1 then LastDefault(rows) else None
  }

  // ---------- What they mean ----------

  /** The positions of the active rows, in table order. */
  ghost function ActivePositions(rows: seq<Language>): seq<nat>
  {
    if rows == [] then [] else
      ActivePositions(rows[..|rows| - 1]) + (if rows[|rows| - 1].isActive then [|rows| - 1] else [])
  }

  /** Positions increase and stay below the length. */
  lemma {:induction false} ActivePositionsIncrease(rows: seq<Language>)
    ensures forall k :: 0 <= k < |ActivePositions(rows)| ==> ActivePositions(rows)[k] < |rows|
    ensures forall j, k :: 0 <= j < k < |ActivePositions(rows)| ==> ActivePositions(rows)[j] < ActivePositions(rows)[k]
  {
    if rows != [] {
      ActivePositionsIncrease(rows[..|rows| - 1]);
    }
  }

  lemma {:induction false} ActivePositionsAreActive(rows: seq<Language>, i: nat)
    requires i < |rows|
    ensures rows[i].isActive <==> i in ActivePositions(rows)
  {
    var n := |rows| - 1;
    if i < n {
      ActivePositionsAreActive(rows[..n], i);
    } else {
      ActivePositionsIncrease(rows[..n]);
    }
  }

  lemma {:induction false} ActiveOnlyIsAtPositions(rows: seq<Language>, k: nat)
    requires k < |ActivePositions(rows)|
    ensures ActivePositions(rows)[k] < |rows|
    ensures k < |ActiveOnly(rows)| && ActiveOnly(rows)[k] == rows[ActivePositions(rows)[k]]
  {
    SameLength(rows[..|rows| - 1]);
    SameLength(rows);
    if k < |ActivePositions(rows[..|rows| - 1])| {
      ActiveOnlyIsAtPositions(rows[..|rows| - 1], k);
    }
  }

  lemma {:induction false} SameLength(rows: seq<Language>)
    ensures |ActivePositions(rows)| == |ActiveOnly(rows)|
  {
    if rows != [] {
      SameLength(rows[..|rows| - 1]);
    }
  }

  /** `ActiveOnly` keeps exactly the active rows, each once, in the order of the table. */
  lemma ActiveOnlyKeepsOrder(rows: seq<Language>)
    ensures var at := ActivePositions(rows);
            && |at| == |ActiveOnly(rows)|
            && (forall k :: 0 <= k < |at| ==> at[k] < |rows| && rows[at[k]] == ActiveOnly(rows)[k])
            && (forall j, k :: 0 <= j < k < |at| ==> at[j] < at[k])
            && (forall i :: 0 <= i < |rows| ==> (rows[i].isActive <==> i in at))
  {
    SameLength(rows);
    ActivePositionsIncrease(rows);
    forall k | 0 <= k < |ActivePositions(rows)|
      ensures rows[ActivePositions(rows)[k]] == ActiveOnly(rows)[k]
    {
      ActiveOnlyIsAtPositions(rows, k);
    }
    forall i | 0 <= i < |rows| ensures rows[i].isActive <==> i in ActivePositions(rows) {
      ActivePositionsAreActive(rows, i);
    }
  }

  lemma {:induction false} CountsDefaults(rows: seq<Language>)
    ensures DefaultCount(rows) == 0 <==> forall i :: 0 <= i < |rows| ==> !rows[i].isDefault
    ensures LastDefault(rows) == None <==> DefaultCount(rows) == 0
    ensures forall i :: 0 <= i < |rows| && rows[i].isDefault && DefaultCount(rows) == 1 ==> LastDefault(rows) == Some(rows[i])
    ensures LastDefault(rows).Some? ==> LastDefault(rows).value in rows && LastDefault(rows).value.isDefault
  {
    if rows != [] {
      var n := |rows| - 1;
      CountsDefaults(rows[..n]);
      assert forall i :: 0 <= i < n ==> rows[..n][i] == rows[i];
    }
  }

  /** `i` is the position of the one row marked default. */
  ghost predicate IsOnlyDefault(rows: seq<Language>, i: int)
  {
    0 <= i < |rows| && rows[i].isDefault && forall j :: 0 <= j < |rows| && rows[j].isDefault ==> j == i
  }

  lemma {:induction false} OnlyDefaultCountsOne(rows: seq<Language>)
    ensures DefaultCount(rows) == 1 <==> exists i :: IsOnlyDefault(rows, i)
  {
    if rows != [] {
      var n := |rows| - 1;
      OnlyDefaultCountsOne(rows[..n]);
      CountsDefaults(rows[..n]);
      assert forall j :: 0 <= j < n ==> rows[..n][j] == rows[j];
      if i :| IsOnlyDefault(rows, i) {
        if i < n { assert IsOnlyDefault(rows[..n], i); }
      }
      if DefaultCount(rows) == 1 {
        if rows[n].isDefault {
          assert IsOnlyDefault(rows, n);
        } else {
          var i :| IsOnlyDefault(rows[..n], i);
          assert rows[i].isDefault;
          assert IsOnlyDefault(rows, i);
        }
      }
    }
  }

  /**
   The single-default rule, which is also what the `GetDefaultLanguage` query selects: a
   default is present exactly when one row is marked, and then it is that row.
   */
  lemma DefaultIsTheOnlyMarkedRow(rows: seq<Language>, lang: Language)
    ensures DefaultOf(rows) == Some(lang) <==> exists i :: IsOnlyDefault(rows, i) && rows[i] == lang
  {
    OnlyDefaultCountsOne(rows);
    CountsDefaults(rows);
  }

  ghost predicate DistinctCodes(rows: seq<Language>)
  {
    forall i, j :: 0 <= i < j < |rows| ==> rows[i].code != rows[j].code
  }

  lemma {:induction false} ByCodeIsTheTable(rows: seq<Language>, code: string, lang: Language)
    requires DistinctCodes(rows)
    ensures (code in ByCode(rows) && ByCode(rows)[code] == lang) <==> (lang in rows && lang.code == code)
  {
    if rows != [] {
      var last := rows[|rows| - 1];
      ByCodeIsTheTable(rows[..|rows| - 1], code, lang);
      assert rows == rows[..|rows| - 1] + [last];
    }
  }

  /**
   In every interleaving, an answer of `GetDefault` names the one marked row of a database
   version between the last `Invalidate` before the call and the read.
   */
  lemma DefaultWasInDatabase(db: seq<Language>, es: seq<Event<Language>>, i: nat) returns (v: nat, at: int)
    requires CanRun(Start(db), es)
    requires i < |Run(Start(db), es).answers| && DefaultOf(Run(Start(db), es).answers[i].rows).Some?
    ensures var s := Run(Start(db), es);
            var a := s.answers[i];
            && a.floor <= v <= a.ceiling < |s.history|
            && IsOnlyDefault(s.history[v], at) && DefaultOf(a.rows) == Some(s.history[v][at])
  {
    EveryAnswerIsExact(db, es, i);
    var a := Run(Start(db), es).answers[i];
    v := a.version;
    DefaultIsTheOnlyMarkedRow(a.rows, DefaultOf(a.rows).value);
    at :| IsOnlyDefault(a.rows, at) && a.rows[at] == DefaultOf(a.rows).value;
  }

  // ---------- The object ----------

  /** `query` stands for what `ListLanguages` answers if it is asked; `None` is its error. */
  class LanguageCache {
    var languages: seq<Language>
    var active: seq<Language>
    var byCode: map<string, Language>
    var defaultLang: Option<Language>
    var loaded: bool

    ghost predicate Valid()
      reads this
    {
      && active == ActiveOnly(languages)
      && byCode == ByCode(languages)
      && defaultLang == DefaultOf(languages)
      && (!loaded ==> languages == [])
    }

    ghost function View(): Cache<Language>
      reads this
    {
      Cache(loaded, languages)
    }

    constructor ()
      ensures Valid() && View() == Cleared()
    {
      languages, active, byCode, defaultLang, loaded := [], [], map[], None, false;
    }

    method LoadAll(query: Option<seq<Language>>) returns (ok: bool)
      requires Valid()
      modifies this
      ensures Valid() && View() == Load(old(View()), query)
      ensures ok <==> loaded
    {
      if loaded {
        return true;
      }
      if query.None? {
        return false;
      }
      languages := query.value;
      byCode := map[];
      active := [];
      defaultLang := None;
      var defaultCount := 0;
      for i := 0 to |languages|
        invariant languages == query.value && !loaded
        invariant byCode == ByCode(languages[..i])
        invariant active == ActiveOnly(languages[..i])
        invariant defaultLang == LastDefault(languages[..i])
        invariant defaultCount == DefaultCount(languages[..i])
      {
        var lang := languages[i];
        assert languages[..i + 1][..i] == languages[..i];
        byCode := byCode[lang.code := lang];
        if lang.isActive {
          active := active + [lang];
        }
        if lang.isDefault {
          defaultCount := defaultCount + 1;
          defaultLang := Some(lang);
        }
      }
      assert languages[..|languages|] == languages;
      if defaultCount != 1 {
        defaultLang := None;
      }
      loaded := true;
      return true;
    }

    method Invalidate()
      modifies this
      ensures Valid() && View() == Cleared()
    {
      loaded, languages, active, byCode, defaultLang := false, [], [], map[], None;
    }

    method GetActive(query: Option<seq<Language>>) returns (r: Result<seq<Language>, LoadError>)
      requires Valid()
      modifies this
      ensures Valid() && View() == Load(old(View()), query)
      ensures r == if loaded then Ok(ActiveOnly(languages)) else Err(QueryFailed)
    {
      if !loaded {
        var ok := LoadAll(query);
        if !ok {
          return Err(QueryFailed);
        }
      }
      return Ok(active);
    }

    method GetByCode(code: string, query: Option<seq<Language>>) returns (r: Result<Option<Language>, LoadError>)
      requires Valid()
      modifies this
      ensures Valid() && View() == Load(old(View()), query)
      ensures r.Ok? <==> loaded
      ensures r.Ok? && DistinctCodes(languages) ==>
                forall lang :: r.value == Some(lang) <==> lang in languages && lang.code == code
    {
      if !loaded {
        var ok := LoadAll(query);
        if !ok {
          return Err(QueryFailed);
        }
      }
      r := Ok(if code in byCode then Some(byCode[code]) else None);
      forall lang | DistinctCodes(languages)
        ensures r.value == Some(lang) <==> lang in languages && lang.code == code
      {
        ByCodeIsTheTable(languages, code, lang);
      }
    }

    method GetDefault(query: Option<seq<Language>>) returns (r: Result<Option<Language>, LoadError>)
      requires Valid()
      modifies this
      ensures Valid() && View() == Load(old(View()), query)
      ensures r.Ok? <==> loaded
      ensures r.Ok? ==> forall lang :: r.value == Some(lang) <==>
                          exists i :: IsOnlyDefault(languages, i) && languages[i] == lang
    {
      if !loaded {
        var ok := LoadAll(query);
        if !ok {
          return Err(QueryFailed);
        }
      }
      r := Ok(defaultLang);
      forall lang ensures r.value == Some(lang) <==> exists i :: IsOnlyDefault(languages, i) && languages[i] == lang {
        DefaultIsTheOnlyMarkedRow(languages, lang);
      }
    }
  }
}
