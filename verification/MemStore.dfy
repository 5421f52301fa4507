/** The in-memory storage provider, its stores and their iterators, in the form the program gives them: maps updated in
    place. Go visits a map in no fixed order; the loops below pick any remaining key. Locks are left to
    StoreInterleaving.dfy, where each locked section is one step. */
module MemStorage {
  import opened Outcomes
  import opened GoText
  import opened StoreModel
  import opened StoreIterator
  import Registry

  class Provider {
    var dbs: map<string, MemStore>
    ghost var events: seq<Registry.Event<MemStore>>

    ghost predicate Valid()
      reads this
    {
      Named() && dbs == Registry.Run(events) && Registry.IsHistory(events)
    }

    /** Every store is registered under its own name, with this provider. */
    ghost predicate Named()
      reads this
    {
      forall storeName :: storeName in dbs ==>
        dbs[storeName].name == storeName == Lower(storeName) && dbs[storeName].provider == this
    }

    constructor ()
      ensures Valid() && events == []
    {
      dbs, events := map[], [];
    }

    method OpenStore(name: string) returns (r: Outcome<MemStore, StoreError>)
      requires Valid()
      modifies this
      ensures Valid()
      ensures name == "" ==> r == Err(EmptyStoreName) && events == old(events)
      ensures name != "" ==> r.Ok? && events == old(events) + [Registry.Open(name, r.value)]
      ensures name != "" ==> Lower(name) in dbs && r.value == dbs[Lower(name)]
      ensures name != "" && Lower(name) !in old(dbs) ==> fresh(r.value) && r.value.db == map[] && r.value.config == []
    {
      if name == "" {
        return Err(EmptyStoreName);
      }
      var storeName := Lower(name);
      LowerIdempotent(name);
      if storeName !in dbs {
        var newStore := new MemStore(storeName, this);
        dbs := dbs[storeName := newStore];
        Registry.HistorySnoc(events, Registry.Open(name, newStore));
        events := events + [Registry.Open(name, newStore)];
        return Ok(newStore);
      }
      Registry.HistorySnoc(events, Registry.Open(name, dbs[storeName]));
      events := events + [Registry.Open(name, dbs[storeName])];
      return Ok(dbs[storeName]);
    }

    method SetStoreConfig(name: string, tagNames: seq<string>) returns (error: Option<StoreError>)
      requires Valid()
      modifies set storeName | storeName in dbs :: dbs[storeName]`config
      ensures (exists i :: 0 <= i < |tagNames| && ':' in tagNames[i]) ==> error == Some(InvalidTagName)
      ensures (forall i :: 0 <= i < |tagNames| ==> ':' !in tagNames[i]) ==>
                error == if Lower(name) in dbs then None else Some(StoreNotFound)
      ensures forall storeName :: storeName in dbs ==>
                dbs[storeName].config == if error.None? && storeName == Lower(name) then tagNames
                                         else old(dbs[storeName].config)
    {
      for i := 0 to |tagNames|
        invariant forall j :: 0 <= j < i ==> ':' !in tagNames[j]
      {
        if ':' in tagNames[i] {
          return Some(InvalidTagName);
        }
      }
      var storeName := Lower(name);
      if storeName !in dbs {
        return Some(StoreNotFound);
      }
      dbs[storeName].config := tagNames;
      return None;
    }

    method GetStoreConfig(name: string) returns (r: Outcome<seq<string>, StoreError>)
      ensures r == if Lower(name) in dbs then Ok(dbs[Lower(name)].config) else Err(StoreNotFound)
    {
      var storeName := Lower(name);
      if storeName !in dbs {
        return Err(StoreNotFound);
      }
      return Ok(dbs[storeName].config);
    }

    /** Every registered store once, in any order. */
    method GetOpenStores() returns (openStores: array<MemStore?>)
      requires Named()
      ensures fresh(openStores) && openStores.Length == |dbs|
      ensures forall i :: 0 <= i < openStores.Length ==>
                openStores[i] != null && openStores[i].name in dbs && openStores[i] == dbs[openStores[i].name]
      ensures forall i, j :: 0 <= i < j < openStores.Length ==> openStores[i] != openStores[j]
      ensures forall storeName :: storeName in dbs ==> dbs[storeName] in openStores[..]
    {
      openStores := new MemStore?[|dbs|](_ => null);
      var counter := 0;
      var rest := dbs.Keys;
      while rest != {}
        invariant rest <= dbs.Keys && counter == |dbs| - |rest|
        invariant forall i :: 0 <= i < counter ==>
                    openStores[i] != null && openStores[i].name in dbs.Keys - rest &&
                    openStores[i] == dbs[openStores[i].name]
        invariant forall i, j :: 0 <= i < j < counter ==> openStores[i] != openStores[j]
        invariant forall storeName :: storeName in dbs.Keys - rest ==> dbs[storeName] in openStores[..counter]
      {
        var storeName :| storeName in rest;
        ghost var listed := openStores[..counter];
        rest := rest - {storeName};
        openStores[counter] := dbs[storeName];
        counter := counter + 1;
        assert openStores[..counter] == listed + [dbs[storeName]];
      }
      assert openStores[..counter] == openStores[..];
    }

    method Close()
      requires Valid()
      modifies this
      ensures Valid() && dbs == map[] && events == old(events) + [Registry.CloseAll]
    {
      dbs := map[];
      Registry.HistorySnoc(events, Registry.CloseAll);
      events := events + [Registry.CloseAll];
    }

    method RemoveStore(name: string)
      requires Valid()
      modifies this
      ensures Valid() && dbs == old(dbs) - {name} && events == old(events) + [Registry.CloseStore(name)]
    {
      if name in dbs {
        dbs := dbs - {name};
      }
      Registry.HistorySnoc(events, Registry.CloseStore(name));
      events := events + [Registry.CloseStore(name)];
    }

    /** Over everything a provider has been asked so far: two openings of names equal up to case returned the same store
        exactly when that name was not closed in between. */
    lemma SameStoreUntilClosed(i: nat, k: nat)
      requires Valid()
      requires i < k < |events| && events[i].Open? && events[k].Open? && EqualFold(events[i].name, events[k].name)
      ensures events[i].handle == events[k].handle <==>
              forall j :: i < j < k ==> !Registry.Closes(events[j], Lower(events[i].name))
    {
      Registry.SameHandleUntilClosed(events, i, k);
    }
  }

  class MemStore {
    const name: string
    const provider: Provider
    var db: Records
    var config: seq<string>

    constructor (name: string, provider: Provider)
      ensures this.name == name && this.provider == provider && db == map[] && config == []
    {
      this.name, this.provider := name, provider;
      db, config := map[], [];
    }

    method Put(key: string, value: Option<Bytes>, tags: seq<Tag>) returns (error: Option<StoreError>)
      modifies this`db
      ensures error == PutError(key, value, tags)
      ensures db == AfterPut(old(db), key, value, tags)
      ensures error.None? <==> key != "" && value.Some? && ColonFree(tags)
      ensures key == "" ==> error == Some(EmptyKey)
      ensures key != "" && value.None? ==> error == Some(NilValue)
      ensures db == if error.None? then old(db)[key := Entry(value.value, tags)] else old(db)
    {
      TagErrorMeansColon(tags);
      if key == "" {
        return Some(EmptyKey);
      }
      if value.None? {
        return Some(NilValue);
      }
      for i := 0 to |tags|
        invariant TagError(tags) == TagError(tags[i..])
      {
        if ':' in tags[i].name {
          return Some(InvalidTagName);
        }
        if ':' in tags[i].value {
          return Some(InvalidTagValue);
        }
      }
      db := db[key := Entry(value.value, tags)];
      return None;
    }

    method Get(key: string) returns (r: Outcome<Bytes, StoreError>)
      ensures r == if key == "" then Err(EmptyKey) else if key in db then Ok(db[key].value) else Err(DataNotFound)
    {
      if key == "" {
        return Err(EmptyKey);
      }
      if key !in db {
        return Err(DataNotFound);
      }
      return Ok(db[key].value);
    }

    method GetTags(key: string) returns (r: Outcome<seq<Tag>, StoreError>)
      ensures r == if key == "" then Err(EmptyKey) else if key in db then Ok(db[key].tags) else Err(DataNotFound)
    {
      if key == "" {
        return Err(EmptyKey);
      }
      if key !in db {
        return Err(DataNotFound);
      }
      return Ok(db[key].tags);
    }

    method GetBulk(keys: seq<string>) returns (r: Outcome<seq<Option<Bytes>>, StoreError>)
      ensures keys == [] ==> r == Err(NoKeys)
      ensures keys != [] ==> (r == Err(EmptyKey) <==> "" in keys) && (r.Ok? <==> "" !in keys)
      ensures r.Ok? ==> |r.value| == |keys|
      ensures r.Ok? ==> forall i :: 0 <= i < |keys| ==>
                r.value[i] == match Lookup(db, keys[i]) case None => None case Some(entry) => Some(entry.value)
    {
      if keys == [] {
        return Err(NoKeys);
      }
      for i := 0 to |keys|
        invariant "" !in keys[..i]
      {
        if keys[i] == "" {
          return Err(EmptyKey);
        }
      }
      assert keys[..|keys|] == keys;
      var values: seq<Option<Bytes>> := [];
      for i := 0 to |keys|
        invariant |values| == i
        invariant forall j :: 0 <= j < i ==>
                    values[j] == match Lookup(db, keys[j]) case None => None case Some(entry) => Some(entry.value)
      {
        values := values + [if keys[i] in db then Some(db[keys[i]].value) else None];
      }
      return Ok(values);
    }

    method Delete(key: string) returns (error: Option<StoreError>)
      modifies this`db
      ensures error == if key == "" then Some(EmptyKey) else None
      ensures db == AfterDelete(old(db), key)
      ensures db == if error.None? then old(db) - {key} else old(db)
    {
      if key == "" {
        return Some(EmptyKey);
      }
      db := db - {key};
      return None;
    }

    method Batch(operations: seq<Operation>) returns (error: Option<StoreError>)
      modifies this`db
      ensures error == BatchError(operations)
      ensures db == AfterBatch(old(db), operations)
      ensures operations == [] ==> error == Some(EmptyBatch)
      ensures operations != [] ==>
                error == if exists i :: 0 <= i < |operations| && operations[i].key == "" then Some(EmptyKey) else None
      ensures error.Some? ==> db == old(db)
    {
      if operations == [] {
        return Some(EmptyBatch);
      }
      for i := 0 to |operations|
        invariant forall j :: 0 <= j < i ==> operations[j].key != ""
      {
        if operations[i].key == "" {
          return Some(EmptyKey);
        }
      }
      for i := 0 to |operations|
        invariant db == ApplyAll(old(db), operations[..i])
      {
        var operation := operations[i];
        ApplyAllSnoc(old(db), operations[..i], operation);
        assert operations[..i + 1] == operations[..i] + [operation];
        if operation.value.None? {
          db := db - {operation.key};
        } else {
          db := db[operation.key := Entry(operation.value.value, operation.tags)];
        }
      }
      assert operations[..|operations|] == operations;
      return None;
    }

    /** Closing only takes the name off the provider's list: the records stay reachable through this handle. */
    method Close()
      requires provider.Valid()
      modifies provider
      ensures provider.Valid()
      ensures provider.dbs == old(provider.dbs) - {name}
      ensures provider.events == old(provider.events) + [Registry.CloseStore(name)]
      ensures db == old(db)
    {
      provider.RemoveStore(name);
    }

    method GetMatchingKeysAndDBEntries(tagName: string, tagValue: string) returns (r: QueryResult)
      ensures IsScan(db, tagName, tagValue, r)
    {
      var keys, dbEntries := [], [];
      var rest := db.Keys;
      while rest != {}
        invariant rest <= db.Keys
        invariant |keys| == |dbEntries| && Distinct(keys)
        invariant forall key :: key in keys <==> key in db.Keys - rest && HasTag(db[key].tags, tagName, tagValue)
        invariant forall i :: 0 <= i < |keys| ==> keys[i] in db && dbEntries[i] == db[keys[i]]
      {
        var key :| key in rest;
        rest := rest - {key};
        var dbEntry := db[key];
        var found := false;
        for i := 0 to |dbEntry.tags|
          invariant !found && forall j :: 0 <= j < i ==>
                      !(dbEntry.tags[j].name == tagName && (tagValue == "" || dbEntry.tags[j].value == tagValue))
        {
          var tag := dbEntry.tags[i];
          if tag.name == tagName && (tagValue == "" || tag.value == tagValue) {
            found := true;
            break;
          }
        }
        if found {
          keys, dbEntries := keys + [key], dbEntries + [dbEntry];
        }
      }
      r := QueryResult(keys, dbEntries);
    }

    /** With nobody else writing, the iterator stands before the first of exactly the matching entries. */
    method Query(expression: string, initialPageNum: int, customSort: bool) returns (r: Outcome<MemIterator, StoreError>)
      ensures initialPageNum != 0 || customSort ==> r == Err(UnsupportedOption)
      ensures initialPageNum == 0 && !customSort && ParseQuery(expression).None? ==> r == Err(InvalidExpression)
      ensures initialPageNum == 0 && !customSort && ParseQuery(expression).Some? ==>
                r.Ok? && fresh(r.value) && r.value.View() == Start(r.value.Results()) &&
                IsAnswer(db, ParseQuery(expression).value, r.value.Results())
    {
      if initialPageNum != 0 || customSort {
        return Err(UnsupportedOption);
      }
      if expression == "" {
        return Err(InvalidExpression);
      }
      var queryResults: map<string, QueryResult> := map[];
      var exps := Split(expression, "&&");
      ghost var conjuncts: seq<Conjunct> := [];
      for i := 0 to |exps|
        invariant |conjuncts| == i
        invariant forall j :: 0 <= j < i ==> ParseConjunct(exps[j]) == Some(conjuncts[j])
        invariant ScansOf(db, conjuncts, queryResults)
      {
        var expressionSplit := Split(exps[i], ":");
        if |expressionSplit| == 1 {
          var result := GetMatchingKeysAndDBEntries(expressionSplit[0], "");
          ScansOfNext(db, conjuncts, queryResults, NameOnly(expressionSplit[0]), result);
          conjuncts := conjuncts + [NameOnly(expressionSplit[0])];
          queryResults := queryResults[expressionSplit[0] := result];
        } else if |expressionSplit| == 2 {
          var result := GetMatchingKeysAndDBEntries(expressionSplit[0], expressionSplit[1]);
          ScansOfNext(db, conjuncts, queryResults, NameValue(expressionSplit[0], expressionSplit[1]), result);
          conjuncts := conjuncts + [NameValue(expressionSplit[0], expressionSplit[1])];
          queryResults := queryResults[expressionSplit[0] := result];
        } else {
          assert ParseConjunct(exps[i]).None?;
          return Err(InvalidExpression);
        }
      }
      assert ParseAll(exps).Some? && ParseAll(exps).value == conjuncts;
      SurvivingIsAConjunct(conjuncts);
      assert conjuncts[0].name in queryResults;
      var common := CommonDBEntries(queryResults);
      MergeIsFilter(db, conjuncts, queryResults, common);
      var it := new MemIterator(common.keys, common.entries);
      return Ok(it);
    }
  }

  class MemIterator {
    var currentIndex: nat
    var currentKey: string
    var currentDBEntry: Option<Entry>
    var keys: seq<string>
    var dbEntries: seq<Entry>

    ghost function View(): Cursor
      reads this
    {
      Cursor(currentIndex, currentKey, currentDBEntry, keys, dbEntries)
    }

    ghost function Results(): QueryResult
      reads this
    {
      QueryResult(keys, dbEntries)
    }

    constructor (keys: seq<string>, dbEntries: seq<Entry>)
      ensures View() == Start(QueryResult(keys, dbEntries))
    {
      currentIndex, currentKey, currentDBEntry := 0, "", None;
      this.keys, this.dbEntries := keys, dbEntries;
    }

    method Next() returns (more: bool)
      requires View().Valid()
      modifies this
      ensures (View(), more) == old(View().Next())
    {
      if |dbEntries| == currentIndex || |dbEntries| == 0 {
        dbEntries := [];
        return false;
      }
      currentKey := keys[currentIndex];
      currentDBEntry := Some(dbEntries[currentIndex]);
      currentIndex := currentIndex + 1;
      return true;
    }

    method Key() returns (r: Outcome<string, StoreError>)
      ensures r == if View().Exhausted() then Err(IteratorExhausted) else Ok(View().key)
    {
      if |dbEntries| == 0 {
        return Err(IteratorExhausted);
      }
      return Ok(currentKey);
    }

    /** The stored value and tags of the current entry; before the first Next there is none yet. */
    method ValueAndTags() returns (r: Outcome<Option<Entry>, StoreError>)
      ensures r == if View().Exhausted() then Err(IteratorExhausted) else Ok(View().entry)
    {
      if |dbEntries| == 0 {
        return Err(IteratorExhausted);
      }
      return Ok(currentDBEntry);
    }

    method TotalItems() returns (n: nat)
      ensures n == |View().keys|
    {
      return |keys|;
    }
  }

  /** The names, among those done, whose partial result holds the key. */
  ghost function Holding(results: map<string, QueryResult>, done: set<string>, key: string): set<string> {
    set name | name in done && name in results && key in results[name].keys
  }

  lemma HoldingNext(results: map<string, QueryResult>, done: set<string>, name: string, key: string)
    requires name in results && name !in done
    ensures |Holding(results, done + {name}, key)| ==
            |Holding(results, done, key)| + if key in results[name].keys then 1 else 0
  {
    assert Holding(results, done + {name}, key) ==
           Holding(results, done, key) + if key in results[name].keys then {name} else {};
  }

  lemma CountingIsIntersection(results: map<string, QueryResult>, key: string)
    ensures |Holding(results, results.Keys, key)| == |results| <==>
            forall name :: name in results ==> key in results[name].keys
  {
    var holding := Holding(results, results.Keys, key);
    assert holding <= results.Keys;
    if holding != results.Keys {
      var name :| name in results.Keys && name !in holding;
      assert holding <= results.Keys - {name};
      SubsetNoLarger(holding, results.Keys - {name});
    }
  }

  lemma {:induction false} SubsetNoLarger<T>(small: set<T>, large: set<T>)
    requires small <= large
    ensures |small| <= |large|
  {
    if small != {} {
      var x :| x in small;
      SubsetNoLarger(small - {x}, large - {x});
    }
  }

  ghost function CountOf(keyMap: map<string, nat>, key: string): nat {
    if key in keyMap then keyMap[key] else 0
  }

  /** Counts, for every key, the partial results that hold it, and keeps the keys whose count is the number of names. */
  method CommonDBEntries(results: map<string, QueryResult>) returns (merged: QueryResult)
    requires results != map[]
    requires forall name :: name in results ==> WellFormed(results[name])
    ensures IsCommon(results, merged)
  {
    var keyMap: map<string, nat> := map[];
    var valueMap: map<string, Entry> := map[];
    var pending := results.Keys;
    while pending != {}
      invariant pending <= results.Keys
      invariant keyMap.Keys == valueMap.Keys
      invariant forall key :: CountOf(keyMap, key) == |Holding(results, results.Keys - pending, key)|
      invariant forall key :: key in keyMap ==> SeenBySome(results, key, valueMap[key])
    {
      var name :| name in pending;
      ghost var done := results.Keys - pending;
      keyMap, valueMap := CountKeys(results, name, keyMap, valueMap);
      pending := pending - {name};
      assert results.Keys - pending == done + {name};
      forall key
        ensures |Holding(results, done + {name}, key)| ==
                |Holding(results, done, key)| + if key in results[name].keys then 1 else 0
      {
        HoldingNext(results, done, name, key);
      }
    }
    assert results.Keys - pending == results.Keys;
    merged := KeepComplete(results, |results|, keyMap, valueMap);
  }

  method CountKeys(results: map<string, QueryResult>, name: string, counted: map<string, nat>,
                   values: map<string, Entry>)
    returns (keyMap: map<string, nat>, valueMap: map<string, Entry>)
    requires name in results && WellFormed(results[name]) && counted.Keys == values.Keys
    requires forall key :: key in counted ==> SeenBySome(results, key, values[key])
    ensures keyMap.Keys == valueMap.Keys
    ensures forall key :: CountOf(keyMap, key) == CountOf(counted, key) + if key in results[name].keys then 1 else 0
    ensures forall key :: key in keyMap ==> SeenBySome(results, key, valueMap[key])
  {
    var result := results[name];
    keyMap, valueMap := counted, values;
    for i := 0 to |result.keys|
      invariant keyMap.Keys == valueMap.Keys
      invariant forall key :: CountOf(keyMap, key) == CountOf(counted, key) + if key in result.keys[..i] then 1 else 0
      invariant forall key :: key in keyMap ==> SeenBySome(results, key, valueMap[key])
    {
      var k := result.keys[i];
      assert result.keys[..i + 1] == result.keys[..i] + [k];
      assert k !in result.keys[..i];
      keyMap := keyMap[k := (if k in keyMap then keyMap[k] else 0) + 1];
      valueMap := valueMap[k := result.entries[i]];
      assert SeenBySome(results, k, result.entries[i]);
    }
    assert result.keys[..|result.keys|] == result.keys;
  }

  method KeepComplete(ghost results: map<string, QueryResult>, numTags: nat, keyMap: map<string, nat>,
                      valueMap: map<string, Entry>)
    returns (merged: QueryResult)
    requires results != map[] && numTags == |results| && keyMap.Keys == valueMap.Keys
    requires forall key :: CountOf(keyMap, key) == |Holding(results, results.Keys, key)|
    requires forall key :: key in keyMap ==> SeenBySome(results, key, valueMap[key])
    ensures IsCommon(results, merged)
  {
    var keys, values := [], [];
    var rest := keyMap.Keys;
    while rest != {}
      invariant rest <= keyMap.Keys
      invariant |keys| == |values| && Distinct(keys)
      invariant forall key :: key in keys <==> key in keyMap.Keys - rest && keyMap[key] == numTags
      invariant forall i :: 0 <= i < |keys| ==> keys[i] in valueMap && values[i] == valueMap[keys[i]]
    {
      var k :| k in rest;
      rest := rest - {k};
      if keyMap[k] == numTags {
        keys, values := keys + [k], values + [valueMap[k]];
      }
    }
    merged := QueryResult(keys, values);
    forall key
      ensures key in keys <==> FoundByAll(results, key)
    {
      CountingIsIntersection(results, key);
    }
  }
}
