/** `ConfigCache` of `internal/cache/config.go`: site configuration, loaded all at once. */
module ConfigCaching {
  import opened Common
  import opened LoadOnce

  /** A row of the `config` table; `key` is its primary key. */
  datatype Config = Config(key: string, value: string)

  datatype LoadError = QueryFailed

  /** The map `loadAll` fills, row by row. */
  function ByKey(rows: seq<Config>): map<string, Config>
  {
    if rows == [] then map[] else
      var last := rows[|rows| - 1];
      ByKey(rows[..|rows| - 1])[last.key := last]
  }

  ghost predicate DistinctKeys(rows: seq<Config>)
  {
    forall i, j :: 0 <= i < j < |rows| ==> rows[i].key != rows[j].key
  }

  /** The map agrees with the table: a key is found with a row exactly when that is its row. */
  lemma {:induction false} ByKeyIsTheTable(rows: seq<Config>, key: string, c: Config)
    requires DistinctKeys(rows)
    ensures (key in ByKey(rows) && ByKey(rows)[key] == c) <==> (c in rows && c.key == key)
  {
    if rows != [] {
      var last := rows[|rows| - 1];
      ByKeyIsTheTable(rows[..|rows| - 1], key, c);
      assert rows == rows[..|rows| - 1] + [last];
    }
  }

  lemma {:induction false} ByKeyDomain(rows: seq<Config>, key: string)
    ensures key in ByKey(rows) <==> exists c :: c in rows && c.key == key
  {
    if rows != [] {
      var last := rows[|rows| - 1];
      ByKeyDomain(rows[..|rows| - 1], key);
      assert rows == rows[..|rows| - 1] + [last];
      assert last in rows;
    }
  }

  /** `Get` answers an absent key with the empty string. */
  function ValueOf(rows: seq<Config>, key: string): string
  {
    if key in ByKey(rows) then ByKey(rows)[key].value else ""
  }

  /** The value of the key's row; without such a row the empty string. */
  ghost predicate IsValueOf(value: string, rows: seq<Config>, key: string)
  {
    && (DistinctKeys(rows) ==> forall c :: c in rows && c.key == key ==> value == c.value)
    && ((forall c :: c in rows ==> c.key != key) ==> value == "")
  }

  lemma ValueIsOfTheRow(rows: seq<Config>, key: string)
    ensures IsValueOf(ValueOf(rows, key), rows, key)
  {
    forall c | DistinctKeys(rows) && c in rows && c.key == key ensures ValueOf(rows, key) == c.value {
      ByKeyIsTheTable(rows, key, c);
    }
    ByKeyDomain(rows, key);
  }

  lemma HeldValueIsARow(rows: seq<Config>, key: string, value: string)
    requires DistinctKeys(rows)
    ensures key in ByKey(rows) && ValueOf(rows, key) == value <==> Config(key, value) in rows
  {
    ByKeyIsTheTable(rows, key, Config(key, value));
    if key in ByKey(rows) { ByKeyIsTheTable(rows, key, ByKey(rows)[key]); }
  }

  /** `m` maps exactly the keys in question that have a row, each to its row's value. */
  ghost predicate HoldsValues(m: map<string, string>, rows: seq<Config>, keys: set<string>)
  {
    forall key, value :: Config(key, value) in rows && key in keys <==> key in m && m[key] == value
  }

  lemma ValuesAreOfTheRows(m: map<string, string>, rows: seq<Config>, keys: set<string>)
    requires DistinctKeys(rows)
    requires forall k :: k in m <==> k in keys && k in ByKey(rows)
    requires forall k :: k in m ==> m[k] == ValueOf(rows, k)
    ensures HoldsValues(m, rows, keys)
  {
    forall key, value ensures Config(key, value) in rows && key in keys <==> key in m && m[key] == value {
      HeldValueIsARow(rows, key, value);
    }
  }

  ghost function KeysOf(rows: seq<Config>): set<string>
  {
    set c | c in rows :: c.key
  }

  lemma AllValuesAreOfTheRows(m: map<string, string>, rows: seq<Config>)
    requires DistinctKeys(rows) && m.Keys == ByKey(rows).Keys
    requires forall k :: k in m ==> m[k] == ValueOf(rows, k)
    ensures HoldsValues(m, rows, KeysOf(rows))
  {
    forall k ensures k in m <==> k in KeysOf(rows) && k in ByKey(rows) {
      ByKeyDomain(rows, k);
    }
    ValuesAreOfTheRows(m, rows, KeysOf(rows));
  }

  // ---------- What a lookup means in every interleaving ----------

  /**
   Whatever a call of any interleaving finds, for however many keys, it finds in one
   database version between the last `Invalidate` before the call and the read.
   */
  lemma FoundConfigsComeFromOneVersion(db: seq<Config>, es: seq<Event<Config>>, i: nat) returns (v: nat)
    requires CanRun(Start(db), es)
    requires var s := Run(Start(db), es);
             && i < |s.answers| && ByKey(s.answers[i].rows) != map[]
             && forall k :: 0 <= k < |s.history| ==> DistinctKeys(s.history[k])
    ensures var s := Run(Start(db), es);
            var a := s.answers[i];
            && a.floor <= v <= a.ceiling < |s.history|
            && forall key :: key in ByKey(a.rows) ==>
                 ByKey(a.rows)[key] in s.history[v] && ByKey(a.rows)[key].key == key
  {
    EveryAnswerIsExact(db, es, i);
    var s := Run(Start(db), es);
    var a := s.answers[i];
    v := a.version;
    forall key | key in ByKey(a.rows) ensures ByKey(a.rows)[key] in s.history[v] && ByKey(a.rows)[key].key == key {
      ByKeyIsTheTable(s.history[v], key, ByKey(a.rows)[key]);
    }
  }

  /** A key reported absent was absent from that version, unless an `Invalidate` disturbed the call. */
  lemma AbsentConfigWasAbsent(db: seq<Config>, es: seq<Event<Config>>, i: nat, key: string)
    requires CanRun(Start(db), es)
    requires var s := Run(Start(db), es);
             && i < |s.answers| && key !in ByKey(s.answers[i].rows)
             && s.answers[i].since == s.answers[i].until
    ensures var s := Run(Start(db), es);
            var a := s.answers[i];
            && a.floor <= a.version <= a.ceiling < |s.history|
            && forall c :: c in s.history[a.version] ==> c.key != key
  {
    UndisturbedCallReadsDatabase(db, es, i);
    ByKeyDomain(Run(Start(db), es).answers[i].rows, key);
  }

  // ---------- The object ----------

  /** `query` stands for what `ListConfig` answers if it is asked; `None` is its error. */
  class ConfigCache {
    var loaded: bool
    var allConfig: map<string, Config>
    ghost var rows: seq<Config>

    ghost predicate Valid()
      reads this
    {
      allConfig == ByKey(rows) && (!loaded ==> rows == [])
    }

    ghost function View(): Cache<Config>
      reads this
    {
      Cache(loaded, rows)
    }

    constructor ()
      ensures Valid() && View() == Cleared()
    {
      loaded, allConfig, rows := false, map[], [];
    }

    method LoadAll(query: Option<seq<Config>>) returns (ok: bool)
      requires Valid()
      modifies this
      ensures Valid() && View() == Load(old(View()), query)
      ensures ok <==> loaded
    {
      if loaded {
        return true;
      }
      if query.None? {
        return false;
      }
      var configs := query.value;
      allConfig := map[];
      rows := [];
      for i := 0 to |configs|
        invariant rows == configs[..i] && allConfig == ByKey(rows)
      {
        allConfig := allConfig[configs[i].key := configs[i]];
        rows := configs[..i + 1];
        assert rows[..i] == configs[..i];
      }
      assert configs[..|configs|] == configs;
      loaded := true;
      return true;
    }

    method Invalidate()
      modifies this
      ensures Valid() && View() == Cleared()
    {
      loaded, allConfig, rows := false, map[], [];
    }

    method Get(key: string, query: Option<seq<Config>>) returns (r: Result<string, LoadError>)
      requires Valid()
      modifies this
      ensures Valid() && View() == Load(old(View()), query)
      ensures r == if loaded then Ok(ValueOf(rows, key)) else Err(QueryFailed)
      ensures r.Ok? ==> IsValueOf(r.value, rows, key)
    {
      if loaded {
        ValueIsOfTheRow(rows, key);
        if key in allConfig {
          return Ok(allConfig[key].value);
        }
        return Ok("");
      }
      var ok := LoadAll(query);
      if !ok {
        return Err(QueryFailed);
      }
      ValueIsOfTheRow(rows, key);
      if key in allConfig {
        return Ok(allConfig[key].value);
      }
      return Ok("");
    }

    method GetConfig(key: string, query: Option<seq<Config>>) returns (r: Result<Option<Config>, LoadError>)
      requires Valid()
      modifies this
      ensures Valid() && View() == Load(old(View()), query)
      ensures r.Ok? <==> loaded
      ensures r.Ok? && DistinctKeys(rows) ==>
                forall c :: r.value == Some(c) <==> c in rows && c.key == key
    {
      if !loaded {
        var ok := LoadAll(query);
        if !ok {
          return Err(QueryFailed);
        }
      }
      r := Ok(if key in allConfig then Some(allConfig[key]) else None);
      forall c | DistinctKeys(rows) ensures r.value == Some(c) <==> c in rows && c.key == key {
        ByKeyIsTheTable(rows, key, c);
      }
    }

    /** The loop of `GetMultiple`. */
    method CopyRequested(keys: seq<string>) returns (result: map<string, string>)
      ensures forall k :: k in result <==> k in keys && k in allConfig
      ensures forall k :: k in result ==> result[k] == allConfig[k].value
    {
      result := map[];
      for i := 0 to |keys|
        invariant forall k :: k in result <==> k in keys[..i] && k in allConfig
        invariant forall k :: k in result ==> result[k] == allConfig[k].value
      {
        assert keys[..i + 1] == keys[..i] + [keys[i]];
        if keys[i] in allConfig {
          result := result[keys[i] := allConfig[keys[i]].value];
        }
      }
      assert keys[..|keys|] == keys;
    }

    /** All values of one answer come from one row list. */
    method GetMultiple(keys: seq<string>, query: Option<seq<Config>>) returns (r: Result<map<string, string>, LoadError>)
      requires Valid()
      modifies this
      ensures Valid() && View() == Load(old(View()), query)
      ensures r.Ok? <==> loaded
      ensures r.Ok? ==> r.value == map k | k in keys && k in ByKey(rows) :: ValueOf(rows, k)
      ensures r.Ok? && DistinctKeys(rows) ==> HoldsValues(r.value, rows, set k | k in keys)
    {
      if !loaded {
        var ok := LoadAll(query);
        if !ok {
          return Err(QueryFailed);
        }
      }
      var result := CopyRequested(keys);
      if DistinctKeys(rows) { ValuesAreOfTheRows(result, rows, set k | k in keys); }
      return Ok(result);
    }

    /** The loop of `All`, in the arbitrary order of the map. */
    method CopyValues() returns (result: map<string, string>)
      ensures result.Keys == allConfig.Keys
      ensures forall k :: k in result ==> result[k] == allConfig[k].value
    {
      result := map[];
      var remaining := allConfig.Keys;
      while remaining != {}
        invariant remaining <= allConfig.Keys
        invariant forall k :: k in result <==> k in allConfig && k !in remaining
        invariant forall k :: k in result ==> result[k] == allConfig[k].value
        decreases |remaining|
      {
        var key :| key in remaining;
        result := result[key := allConfig[key].value];
        remaining := remaining - {key};
      }
    }

    method All(query: Option<seq<Config>>) returns (r: Result<map<string, string>, LoadError>)
      requires Valid()
      modifies this
      ensures Valid() && View() == Load(old(View()), query)
      ensures r.Ok? <==> loaded
      ensures r.Ok? ==> r.value == map k | k in ByKey(rows) :: ValueOf(rows, k)
      ensures r.Ok? && DistinctKeys(rows) ==> HoldsValues(r.value, rows, KeysOf(rows))
    {
      if !loaded {
        var ok := LoadAll(query);
        if !ok {
          return Err(QueryFailed);
        }
      }
      var result := CopyValues();
      if DistinctKeys(rows) { AllValuesAreOfTheRows(result, rows); }
      return Ok(result);
    }
  }
}
