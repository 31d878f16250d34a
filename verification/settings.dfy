/** `SystemSettingService`: settings rows in the database, read through a
    Redis hash that caches them. Both stores are maps from key to value; the
    cache is the hash under the service's one Redis key. */
module Settings {
  import opened Common
  import opened Strings

  datatype Settings = Settings(db: map<string, string>, cache: map<string, string>)

  /** Every cached entry agrees with the database. */
  predicate Coherent(s: Settings) {
    forall k :: k in s.cache ==> k in s.db && s.cache[k] == s.db[k]
  }

  /** `refreshCache`: drop the hash and write every row into it. */
  function RefreshCache(s: Settings): (r: Settings)
    ensures r.db == s.db && r.cache == s.db
    ensures Coherent(r)
  {
    s.(cache := s.db)
  }

  /** `getAllSettings`: the cached entries, after a refresh when there are
      none. */
  function GetAllSettings(s: Settings): (r: (map<string, string>, Settings))
    ensures r.1.db == s.db && r.0 == r.1.cache
    ensures s.cache != map[] ==> r.1 == s
    ensures s.cache == map[] ==> r.1 == RefreshCache(s)
    ensures Coherent(s) ==> Coherent(r.1) && forall k :: k in r.0 ==> k in s.db && r.0[k] == s.db[k]
  {
    var t := if s.cache == map[] then RefreshCache(s) else s;
    (t.cache, t)
  }

  function NotFoundMessage(key: string): string {
    "Setting with key: " + key + " not found"
  }

  /** `getSetting`: a hit answers from the cache; a miss reads the row and
      writes it back to the cache; a key in neither fails. */
  function GetSetting(s: Settings, key: string): (r: Result<(string, Settings)>)
    ensures r.Err? <==> key !in s.cache && key !in s.db
    ensures r.Err? ==> r.failure == Runtime(NotFoundMessage(key))
    ensures r.Ok? ==> r.value.1.db == s.db && key in r.value.1.cache && r.value.1.cache[key] == r.value.0
    ensures r.Ok? ==> r.value.1.cache - {key} == s.cache - {key}
    ensures key in s.cache ==> r == Ok((s.cache[key], s))
  {
    if key in s.cache then Ok((s.cache[key], s))
    else if key in s.db then Ok((s.db[key], s.(cache := s.cache[key := s.db[key]])))
    else Err(Runtime(NotFoundMessage(key)))
  }

  /** Over a coherent cache, reading a setting answers the database's value,
      fails exactly for keys the database lacks, and keeps the cache
      coherent; a second read is then a cache hit. */
  lemma GetSettingReadsThrough(s: Settings, key: string)
    requires Coherent(s)
    ensures GetSetting(s, key).Ok? <==> key in s.db
    ensures key in s.db ==>
              var (v, t) := GetSetting(s, key).value;
              && v == s.db[key] && Coherent(t) && key in t.cache
              && GetSetting(t, key) == Ok((v, t))
  {
  }

  /** `getBooleanSetting`: whether the value is "true" in any letter case. */
  function GetBooleanSetting(s: Settings, key: string): (r: Result<(bool, Settings)>)
    ensures r.Ok? <==> GetSetting(s, key).Ok?
    ensures r.Err? ==> r.failure == GetSetting(s, key).failure
    ensures r.Ok? ==> r.value.1 == GetSetting(s, key).value.1
    ensures r.Ok? ==>
              var v := GetSetting(s, key).value.0;
              r.value.0 <==> |v| == 4 && LowerChar(v[0]) == 't' && LowerChar(v[1]) == 'r'
                                      && LowerChar(v[2]) == 'u' && LowerChar(v[3]) == 'e'
  {
    var (v, t) :- GetSetting(s, key);
    assert Lower("true") == "true";
    Ok((EqualsIgnoreCase("true", v), t))
  }

  /** The keys of an update, in the map's iteration order. */
  function Keys(updates: seq<(string, string)>): (r: seq<string>)
    ensures |r| == |updates| && forall i :: 0 <= i < |r| ==> r[i] == updates[i].0
  {
    seq(|updates|, i requires 0 <= i < |updates| => updates[i].0)
  }

  /** A Java map has each key once. */
  predicate DistinctKeys(updates: seq<(string, string)>) {
    forall i, j :: 0 <= i < j < |updates| ==> updates[i].0 != updates[j].0
  }

  /** The update as a map. */
  function AsMap(updates: seq<(string, string)>): (m: map<string, string>)
    requires DistinctKeys(updates)
    ensures m.Keys == set i | 0 <= i < |updates| :: updates[i].0
    ensures forall i :: 0 <= i < |updates| ==> m[updates[i].0] == updates[i].1
  {
    if |updates| == 0 then map[]
    else
      var rest := AsMap(updates[1..]);
      assert forall i :: 1 <= i < |updates| ==> updates[i] == updates[1..][i - 1];
      rest[updates[0].0 := updates[0].1]
  }

  /** The keys of the update that the database lacks, in update order. */
  function MissingKeys(db: map<string, string>, keys: seq<string>): (r: seq<string>)
    ensures forall k :: k in r <==> k in keys && k !in db
  {
    if |keys| == 0 then []
    else if keys[0] in db then MissingKeys(db, keys[1..])
    else [keys[0]] + MissingKeys(db, keys[1..])
  }

  /** `AbstractCollection.toString`: "[a, b]". */
  function Show(keys: seq<string>): string {
    "[" + Join(keys, ", ") + "]"
  }

  function MissingMessage(missing: seq<string>): string {
    "Update failed. The following keys do not exist: " + Show(missing)
  }

  /** `updateSettings`: nothing for a null or empty map; a failure naming
      the unknown keys, before anything is written, when the database lacks
      one; otherwise the new values go to the database and to the cache. */
  function UpdateSettings(s: Settings, updates: Option<seq<(string, string)>>): (r: Result<Settings>)
    requires updates.Some? ==> DistinctKeys(updates.value)
    ensures updates.None? || updates.value == [] ==> r == Ok(s)
    ensures r.Err? <==> updates.Some? && exists i :: 0 <= i < |updates.value| && updates.value[i].0 !in s.db
    ensures r.Err? ==> r.failure == Runtime(MissingMessage(MissingKeys(s.db, Keys(updates.value))))
    ensures r.Ok? && updates.Some? ==>
              && r.value.db.Keys == s.db.Keys
              && r.value.cache.Keys == s.cache.Keys + AsMap(updates.value).Keys
              && (forall i :: 0 <= i < |updates.value| ==>
                    r.value.db[updates.value[i].0] == updates.value[i].1
                    && r.value.cache[updates.value[i].0] == updates.value[i].1)
              && (forall k :: k in s.db && k !in AsMap(updates.value) ==> r.value.db[k] == s.db[k])
              && (forall k :: k in s.cache && k !in AsMap(updates.value) ==> r.value.cache[k] == s.cache[k])
  {
    if updates.None? || updates.value == [] then Ok(s)
    else
      var missing := MissingKeys(s.db, Keys(updates.value));
      NoneMissing(s.db, updates.value);
      if missing != [] then
        Err(Runtime(MissingMessage(missing)))
      else
        var m := AsMap(updates.value);
        WriteOver(s.db, updates.value, m);
        WriteOver(s.cache, updates.value, m);
        Ok(Settings(s.db + m, s.cache + m))
  }

  /** No key is missing exactly when the database has every key. */
  lemma NoneMissing(db: map<string, string>, updates: seq<(string, string)>)
    ensures MissingKeys(db, Keys(updates)) == [] <==> forall i :: 0 <= i < |updates| ==> updates[i].0 in db
  {
    var missing := MissingKeys(db, Keys(updates));
    if missing != [] {
      assert missing[0] in Keys(updates);
    } else {
      forall i | 0 <= i < |updates| ensures updates[i].0 in db {
        assert Keys(updates)[i] == updates[i].0;
      }
    }
  }

  /** Writing the update map over one store. */
  lemma WriteOver(store: map<string, string>, updates: seq<(string, string)>, m: map<string, string>)
    requires DistinctKeys(updates) && m == AsMap(updates)
    ensures (store + m).Keys == store.Keys + m.Keys
    ensures forall i :: 0 <= i < |updates| ==> (store + m)[updates[i].0] == updates[i].1
    ensures forall k :: k in store && k !in m ==> (store + m)[k] == store[k]
  {
  }

  /** A successful update keeps the cache coherent, and reading an updated
      key afterwards answers its new value. */
  lemma UpdateThenRead(s: Settings, updates: seq<(string, string)>, i: int)
    requires Coherent(s) && DistinctKeys(updates) && 0 <= i < |updates|
    requires UpdateSettings(s, Some(updates)).Ok?
    ensures var t := UpdateSettings(s, Some(updates)).value;
            Coherent(t) && GetSetting(t, updates[i].0) == Ok((updates[i].1, t))
  {
    var m := AsMap(updates);
    var t := UpdateSettings(s, Some(updates)).value;
    assert t == Settings(s.db + m, s.cache + m);
  }

  /** A failed update writes nothing: both stores are as before. */
  lemma FailedUpdateWritesNothing(s: Settings, updates: seq<(string, string)>, k: string)
    requires DistinctKeys(updates) && k in Keys(updates) && k !in s.db
    ensures UpdateSettings(s, Some(updates)).Err?
    ensures k in MissingKeys(s.db, Keys(updates))
  {
    var i :| 0 <= i < |updates| && Keys(updates)[i] == k;
    assert updates[i].0 == k;
  }

  /** `updateSetting`: the update of a one-entry map. */
  function UpdateSetting(s: Settings, key: string, value: string): (r: Result<Settings>)
    ensures r.Err? <==> key !in s.db
    ensures r.Err? ==> r.failure == Runtime(MissingMessage([key]))
    ensures r.Ok? ==> r.value == Settings(s.db[key := value], s.cache[key := value])
  {
    assert MissingKeys(s.db, Keys([(key, value)])) == if key in s.db then [] else [key];
    assert AsMap([(key, value)]) == map[key := value];
    assert s.db + map[key := value] == s.db[key := value];
    assert s.cache + map[key := value] == s.cache[key := value];
    UpdateSettings(s, Some([(key, value)]))
  }

  /** A subset of a finite set with as many elements is the set itself. */
  lemma SubsetSameSize<T>(a: set<T>, b: set<T>)
    requires a <= b && |a| == |b|
    ensures a == b
  {
    if a != b {
      var x :| x in b && x !in a;
      assert a <= b - {x};
      SubsetSize(a, b - {x});
    }
  }

  lemma {:induction false} SubsetSize<T>(a: set<T>, b: set<T>)
    requires a <= b
    ensures |a| <= |b|
    decreases b
  {
    if a != {} {
      var x :| x in a;
      SubsetSize(a - {x}, b - {x});
    }
  }

  /** After the cache-miss path of `getSetting` has written one key into an
      emptied cache, `getAllSettings` answers that key alone, although the
      database holds more. */
  lemma PartialCacheHidesSettings()
    ensures var s := Settings(map["a" := "1", "b" := "2"], map[]);
            var (_, t) := GetSetting(s, "b").value;
            GetAllSettings(t).0 == map["b" := "2"] && GetAllSettings(t).0 != s.db
  {
    var s := Settings(map["a" := "1", "b" := "2"], map[]);
    var (_, t) := GetSetting(s, "b").value;
    assert t.cache == map["b" := "2"];
    assert "a" in s.db && "a" !in t.cache;
  }

  /** `getAllSettings` refreshing whenever the cache holds fewer entries than
      the database, not only when it holds none. */
  function GetAllSettingsComplete(s: Settings): (r: (map<string, string>, Settings))
    ensures r.1.db == s.db && r.0 == r.1.cache
    ensures Coherent(s) ==> Coherent(r.1) && r.0 == s.db
  {
    var t := if |s.cache| != |s.db| then RefreshCache(s) else s;
    assert Coherent(s) ==> t.cache == s.db by {
      if Coherent(s) && |s.cache| == |s.db| {
        SubsetSameSize(s.cache.Keys, s.db.Keys);
      }
    }
    (t.cache, t)
  }
}
