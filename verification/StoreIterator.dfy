/** The query iterator as a value: what each call of Next leaves behind and what Key, Value and Tags then return. */
module StoreIterator {
  import opened Outcomes
  import opened StoreModel

  datatype Cursor = Cursor(index: nat, key: string, entry: Option<Entry>, keys: seq<string>, entries: seq<Entry>) {
    predicate Valid() {
      entries != [] ==> index <= |entries| == |keys|
    }

    predicate Exhausted() {
      |entries| == 0
    }

    /** The cursor after a call of Next, and what the call returns. */
    function Next(): (r: (Cursor, bool))
      requires Valid()
      ensures r.0.Valid()
    {
      if |entries| == index || |entries| == 0 then (this.(entries := []), false)
      else (Cursor(index + 1, keys[index], Some(entries[index]), keys, entries), true)
    }
  }

  function Start(r: QueryResult): Cursor {
    Cursor(0, "", None, r.keys, r.entries)
  }

  /** The cursor after a number of calls of Next. */
  function AfterCalls(r: QueryResult, calls: nat): (c: Cursor)
    requires |r.keys| == |r.entries|
    ensures c.Valid()
  {
    if calls == 0 then Start(r) else AfterCalls(r, calls - 1).Next().0
  }

  function CallReturns(r: QueryResult, call: nat): bool
    requires |r.keys| == |r.entries|
  {
    AfterCalls(r, call).Next().1
  }

  /** The first n calls return true and stand on the n results in order; every later call returns false and leaves
      nothing to read. */
  lemma {:induction false} IteratorWalk(r: QueryResult, calls: nat)
    requires |r.keys| == |r.entries|
    ensures CallReturns(r, calls) <==> calls < |r.keys|
    ensures calls > |r.keys| ==> AfterCalls(r, calls).Exhausted()
    ensures calls <= |r.keys| && r.keys != [] ==>
              AfterCalls(r, calls).index == calls && AfterCalls(r, calls).entries == r.entries
    ensures 0 < calls <= |r.keys| ==>
              AfterCalls(r, calls).key == r.keys[calls - 1] && AfterCalls(r, calls).entry == Some(r.entries[calls - 1])
    ensures AfterCalls(r, calls).keys == r.keys
  {
    if calls > 0 {
      IteratorWalk(r, calls - 1);
    }
  }

  /** The call after which the iterator stands on the key. */
  ghost predicate StandsOn(r: QueryResult, call: nat, key: string, entry: Entry)
    requires |r.keys| == |r.entries|
  {
    && call > 0 && CallReturns(r, call - 1)
    && !AfterCalls(r, call).Exhausted()
    && AfterCalls(r, call).key == key && AfterCalls(r, call).entry == Some(entry)
  }

  /** Draining the iterator of an answer visits, each exactly once and with its stored entry, precisely the keys whose
      tags satisfy the surviving conjuncts. */
  lemma QueryRefinesFiltering(records: Records, conjuncts: seq<Conjunct>, r: QueryResult, key: string)
    requires IsAnswer(records, conjuncts, r)
    ensures key in records && SatisfiesSurviving(records[key].tags, conjuncts) ==>
              exists call: nat :: StandsOn(r, call, key, records[key])
    ensures forall call: nat, entry: Entry :: StandsOn(r, call, key, entry) ==>
              key in records && SatisfiesSurviving(records[key].tags, conjuncts) && entry == records[key]
    ensures forall call: nat, other: nat, entry: Entry, entry': Entry ::
              StandsOn(r, call, key, entry) && StandsOn(r, other, key, entry') ==> call == other
  {
    forall call: nat, entry: Entry | StandsOn(r, call, key, entry)
      ensures 0 < call <= |r.keys| && r.keys[call - 1] == key && r.entries[call - 1] == entry
    {
      IteratorWalk(r, call - 1);
      IteratorWalk(r, call);
    }
    if key in r.keys {
      var i :| 0 <= i < |r.keys| && r.keys[i] == key;
      IteratorWalk(r, i);
      IteratorWalk(r, i + 1);
      assert StandsOn(r, i + 1, key, records[key]);
    }
  }
}
