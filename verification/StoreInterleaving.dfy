/** A query that runs while other threads write. Query takes the store's read lock anew for every conjunct and holds no
    lock while it merges, so each scan, the merge, and each Put, Delete or Batch is one atomic step. */
module StoreInterleaving {
  import opened Outcomes
  import opened GoText
  import opened StoreModel

  datatype Write =
    | Put(key: string, value: Option<Bytes>, tags: seq<Tag>)
    | Delete(key: string)
    | Batch(ops: seq<Operation>)

  function AfterWrite(records: Records, w: Write): Records {
    match w
    case Put(key, value, tags) => AfterPut(records, key, value, tags)
    case Delete(key) => AfterDelete(records, key)
    case Batch(ops) => AfterBatch(records, ops)
  }

  /** What a write does to one key: a refused one nothing, any other only to the keys it names. */
  lemma WriteDecidesKey(records: Records, w: Write, key: string)
    ensures w.Put? ==>
              Lookup(AfterWrite(records, w), key) ==
              if key != "" && key == w.key && w.value.Some? && ColonFree(w.tags) then Some(Entry(w.value.value, w.tags))
              else Lookup(records, key)
    ensures w.Delete? ==>
              Lookup(AfterWrite(records, w), key) ==
              if key != "" && key == w.key then None else Lookup(records, key)
    ensures w.Batch? ==>
              if w.ops == [] || exists i :: 0 <= i < |w.ops| && w.ops[i].key == "" then AfterWrite(records, w) == records
              else
                Lookup(AfterWrite(records, w), key) ==
                match LastNaming(w.ops, key)
                case None => Lookup(records, key)
                case Some(op) => if op.value.None? then None else Some(Entry(op.value.value, op.tags))
  {
    match w
    case Put(_, _, tags) => TagErrorMeansColon(tags);
    case Delete(_) =>
    case Batch(ops) => BatchDecidedByLastOperation(records, ops, key);
  }

  /** The store, how many conjuncts the query has scanned, its partial results by tag name, and its answer. */
  datatype World = World(records: Records, scanned: nat, results: map<string, QueryResult>, answer: Option<QueryResult>)

  ghost predicate WriteStep(w: World, w': World) {
    exists write: Write :: w' == w.(records := AfterWrite(w.records, write))
  }

  ghost predicate ScanStep(conjuncts: seq<Conjunct>, w: World, w': World) {
    && w.scanned < |conjuncts|
    && var c := conjuncts[w.scanned];
       exists r: QueryResult :: IsScan(w.records, c.name, c.Wanted(), r) &&
         w' == w.(scanned := w.scanned + 1, results := w.results[c.name := r])
  }

  ghost predicate MergeStep(conjuncts: seq<Conjunct>, w: World, w': World) {
    && w.scanned == |conjuncts| && w.answer.None?
    && exists merged: QueryResult :: IsCommon(w.results, merged) && w' == w.(answer := Some(merged))
  }

  ghost predicate Step(conjuncts: seq<Conjunct>, w: World, w': World) {
    WriteStep(w, w') || ScanStep(conjuncts, w, w') || MergeStep(conjuncts, w, w')
  }

  /** A run: any interleaving of writes with the steps of one query. */
  ghost predicate IsRun(conjuncts: seq<Conjunct>, run: seq<World>) {
    && run != []
    && run[0].scanned == 0 && run[0].results == map[] && run[0].answer.None?
    && forall t :: 0 <= t < |run| - 1 ==> Step(conjuncts, run[t], run[t + 1])
  }

  /** The query scans conjunct i in the step that leaves moment t. */
  ghost predicate ScansAt(run: seq<World>, t: int, i: nat) {
    0 <= t < |run| - 1 && run[t].scanned == i && run[t + 1].scanned == i + 1
  }

  /** The partial result kept for a name is the scan of the last conjunct with that name so far, taken at the moment
      that conjunct was scanned. */
  ghost predicate Snapshot(conjuncts: seq<Conjunct>, run: seq<World>, scanned: nat, name: string, r: QueryResult) {
    exists t: int, i: nat :: ScansAt(run, t, i) && i < scanned <= |conjuncts| && LastFor(conjuncts, scanned, name, i) &&
      IsScan(run[t].records, name, conjuncts[i].Wanted(), r)
  }

  ghost predicate LastFor(conjuncts: seq<Conjunct>, scanned: nat, name: string, i: nat)
    requires scanned <= |conjuncts|
  {
    i < scanned && conjuncts[i].name == name && forall j :: i < j < scanned ==> conjuncts[j].name != name
  }

  ghost predicate AllSnapshots(conjuncts: seq<Conjunct>, run: seq<World>, scanned: nat,
                               results: map<string, QueryResult>) {
    forall name :: name in results ==> Snapshot(conjuncts, run, scanned, name, results[name])
  }

  ghost predicate Invariant(conjuncts: seq<Conjunct>, run: seq<World>)
    requires run != []
  {
    var now := run[|run| - 1];
    && now.scanned <= |conjuncts|
    && (forall i :: 0 <= i < now.scanned ==> conjuncts[i].name in now.results)
    && AllSnapshots(conjuncts, run, now.scanned, now.results)
    && (now.answer.Some? ==> now.scanned == |conjuncts| && IsCommon(now.results, now.answer.value))
  }

  lemma ExtendSnapshot(conjuncts: seq<Conjunct>, run: seq<World>, longer: seq<World>, scanned: nat, scanned': nat,
                       name: string, r: QueryResult)
    requires run <= longer && scanned <= scanned' <= |conjuncts|
    requires Snapshot(conjuncts, run, scanned, name, r)
    requires forall j :: scanned <= j < scanned' ==> conjuncts[j].name != name
    ensures Snapshot(conjuncts, longer, scanned', name, r)
  {
    var t: int, i: nat :| ScansAt(run, t, i) && i < scanned && LastFor(conjuncts, scanned, name, i) &&
      IsScan(run[t].records, name, conjuncts[i].Wanted(), r);
    assert longer[t] == run[t] && longer[t + 1] == run[t + 1];
    assert ScansAt(longer, t, i) && LastFor(conjuncts, scanned', name, i);
  }

  lemma {:induction false} InvariantHolds(conjuncts: seq<Conjunct>, run: seq<World>)
    requires IsRun(conjuncts, run)
    ensures Invariant(conjuncts, run)
    decreases |run|
  {
    if |run| > 1 {
      var n := |run| - 1;
      var before := run[..n];
      assert IsRun(conjuncts, before) by {
        forall t | 0 <= t < |before| - 1
          ensures Step(conjuncts, before[t], before[t + 1])
        {
          assert before[t] == run[t] && before[t + 1] == run[t + 1];
        }
      }
      InvariantHolds(conjuncts, before);
      var w, w' := run[n - 1], run[n];
      assert before[|before| - 1] == w && Step(conjuncts, w, w') && run == before + [w'];
      if ScanStep(conjuncts, w, w') {
        var c := conjuncts[w.scanned];
        var r: QueryResult :| IsScan(w.records, c.name, c.Wanted(), r) &&
          w' == w.(scanned := w.scanned + 1, results := w.results[c.name := r]);
        InvariantAfterScan(conjuncts, before, w, c, r);
      } else {
        InvariantAfterOther(conjuncts, before, w, w');
      }
    }
  }

  lemma InvariantAfterScan(conjuncts: seq<Conjunct>, before: seq<World>, w: World, c: Conjunct, r: QueryResult)
    requires before != [] && Invariant(conjuncts, before) && before[|before| - 1] == w
    requires w.scanned < |conjuncts| && c == conjuncts[w.scanned] && IsScan(w.records, c.name, c.Wanted(), r)
    ensures Invariant(conjuncts, before + [w.(scanned := w.scanned + 1, results := w.results[c.name := r])])
  {
    var w' := w.(scanned := w.scanned + 1, results := w.results[c.name := r]);
    var run := before + [w'];
    SnapshotsAfterScan(conjuncts, before, w, c, r);
    assert run[|run| - 1] == w';
    assert forall i :: 0 <= i < w'.scanned ==> conjuncts[i].name in w'.results;
  }

  lemma SnapshotsAfterScan(conjuncts: seq<Conjunct>, before: seq<World>, w: World, c: Conjunct, r: QueryResult)
    requires before != [] && before[|before| - 1] == w && AllSnapshots(conjuncts, before, w.scanned, w.results)
    requires w.scanned < |conjuncts| && c == conjuncts[w.scanned] && IsScan(w.records, c.name, c.Wanted(), r)
    ensures var w' := w.(scanned := w.scanned + 1, results := w.results[c.name := r]);
            AllSnapshots(conjuncts, before + [w'], w'.scanned, w'.results)
  {
    var w' := w.(scanned := w.scanned + 1, results := w.results[c.name := r]);
    forall name | name in w'.results
      ensures Snapshot(conjuncts, before + [w'], w'.scanned, name, w'.results[name])
    {
      if name == c.name {
        NewSnapshot(conjuncts, before, w', c, r);
      } else {
        OldSnapshot(conjuncts, before, w', name, w.results[name]);
      }
    }
  }

  lemma OldSnapshot(conjuncts: seq<Conjunct>, before: seq<World>, w': World, name: string, r: QueryResult)
    requires 0 < w'.scanned <= |conjuncts| && conjuncts[w'.scanned - 1].name != name
    requires Snapshot(conjuncts, before, w'.scanned - 1, name, r)
    ensures Snapshot(conjuncts, before + [w'], w'.scanned, name, r)
  {
    ExtendSnapshot(conjuncts, before, before + [w'], w'.scanned - 1, w'.scanned, name, r);
  }

  lemma NewSnapshot(conjuncts: seq<Conjunct>, before: seq<World>, w': World, c: Conjunct, r: QueryResult)
    requires before != [] && before[|before| - 1].scanned < |conjuncts| && c == conjuncts[before[|before| - 1].scanned]
    requires IsScan(before[|before| - 1].records, c.name, c.Wanted(), r) && w'.scanned == before[|before| - 1].scanned + 1
    ensures Snapshot(conjuncts, before + [w'], w'.scanned, c.name, r)
  {
    var w := before[|before| - 1];
    var run, t := before + [w'], |before| - 1;
    assert run[t] == w && run[t + 1] == w' && ScansAt(run, t, w.scanned);
    assert LastFor(conjuncts, w'.scanned, c.name, w.scanned);
  }

  /** A write or the merge leaves the partial results alone. */
  lemma InvariantAfterOther(conjuncts: seq<Conjunct>, before: seq<World>, w: World, w': World)
    requires before != [] && Invariant(conjuncts, before) && before[|before| - 1] == w
    requires w'.results == w.results && w'.scanned == w.scanned
    requires w'.answer == w.answer ||
             (w.scanned == |conjuncts| && w'.answer.Some? && IsCommon(w.results, w'.answer.value))
    ensures Invariant(conjuncts, before + [w'])
  {
    var run := before + [w'];
    assert run[|run| - 1] == w';
    forall name | name in w'.results
      ensures Snapshot(conjuncts, run, w'.scanned, name, w'.results[name])
    {
      ExtendSnapshot(conjuncts, before, run, w.scanned, w'.scanned, name, w.results[name]);
    }
  }

  // ---- what every run guarantees -------------------------------------------------------------

  /** The entry was stored under the key when conjunct i was scanned, and satisfied it. */
  ghost predicate MatchedWhenScanned(conjuncts: seq<Conjunct>, run: seq<World>, i: nat, key: string) {
    && i < |conjuncts|
    && exists t: int ::
         && ScansAt(run, t, i)
         && key in run[t].records
         && HasTag(run[t].records[key].tags, conjuncts[i].name, conjuncts[i].Wanted())
  }

  ghost predicate StoredWhenScanned(conjuncts: seq<Conjunct>, run: seq<World>, i: nat, key: string, entry: Entry) {
    exists t: int :: ScansAt(run, t, i) && key in run[t].records && run[t].records[key] == entry
  }

  /** A conjunct survives when no later one has its name. */
  ghost predicate Survives(conjuncts: seq<Conjunct>, i: nat) {
    i < |conjuncts| && LastFor(conjuncts, |conjuncts|, conjuncts[i].name, i)
  }

  /** Whatever is written meanwhile, an answered query returns exactly the keys that satisfied every surviving conjunct
      in the store as it stood when that conjunct was scanned; each comes with the entry stored under it at one of those
      scans, and comes once. */
  lemma ConcurrentQuerySound(conjuncts: seq<Conjunct>, run: seq<World>, key: string)
    requires conjuncts != [] && IsRun(conjuncts, run) && run[|run| - 1].answer.Some?
    ensures WellFormed(run[|run| - 1].answer.value)
    ensures key in run[|run| - 1].answer.value.keys <==>
            forall i: nat :: Survives(conjuncts, i) ==> MatchedWhenScanned(conjuncts, run, i, key)
    ensures var answer := run[|run| - 1].answer.value;
            forall j :: 0 <= j < |answer.keys| ==> StoredAtSomeScan(conjuncts, run, answer.keys[j], answer.entries[j])
  {
    AnswerIsCommon(conjuncts, run);
    KeysMatchedEverywhere(conjuncts, run, key);
    var answer := run[|run| - 1].answer.value;
    forall j | 0 <= j < |answer.keys|
      ensures StoredAtSomeScan(conjuncts, run, answer.keys[j], answer.entries[j])
    {
      EntryStoredAtSomeScan(conjuncts, run, j);
    }
  }

  /** The entry was stored under the key when some surviving conjunct was scanned. */
  ghost predicate StoredAtSomeScan(conjuncts: seq<Conjunct>, run: seq<World>, key: string, entry: Entry) {
    exists i: nat :: Survives(conjuncts, i) && StoredWhenScanned(conjuncts, run, i, key, entry)
  }

  lemma AnswerIsCommon(conjuncts: seq<Conjunct>, run: seq<World>)
    requires conjuncts != [] && IsRun(conjuncts, run) && run[|run| - 1].answer.Some?
    ensures var now := run[|run| - 1];
            now.results != map[] && now.scanned == |conjuncts| && IsCommon(now.results, now.answer.value)
  {
    InvariantHolds(conjuncts, run);
    assert conjuncts[0].name in run[|run| - 1].results;
  }

  lemma KeysMatchedEverywhere(conjuncts: seq<Conjunct>, run: seq<World>, key: string)
    requires conjuncts != [] && IsRun(conjuncts, run) && run[|run| - 1].answer.Some?
    ensures key in run[|run| - 1].answer.value.keys <==>
            forall i: nat :: Survives(conjuncts, i) ==> MatchedWhenScanned(conjuncts, run, i, key)
  {
    AnswerIsCommon(conjuncts, run);
    var now := run[|run| - 1];
    assert key in now.answer.value.keys <==> FoundByAll(now.results, key);
    if FoundByAll(now.results, key) {
      forall i: nat | Survives(conjuncts, i)
        ensures MatchedWhenScanned(conjuncts, run, i, key)
      {
        SurvivorHeld(conjuncts, run, i, key);
      }
    } else {
      var name :| name in now.results && key !in now.results[name].keys;
      var i := SurvivorFor(conjuncts, run, name);
      SurvivorHeld(conjuncts, run, i, key);
    }
  }

  lemma EntryStoredAtSomeScan(conjuncts: seq<Conjunct>, run: seq<World>, j: nat)
    requires conjuncts != [] && IsRun(conjuncts, run) && run[|run| - 1].answer.Some?
    requires WellFormed(run[|run| - 1].answer.value) && j < |run[|run| - 1].answer.value.keys|
    ensures var answer := run[|run| - 1].answer.value;
            StoredAtSomeScan(conjuncts, run, answer.keys[j], answer.entries[j])
  {
    InvariantHolds(conjuncts, run);
    var now := run[|run| - 1];
    var key, entry := now.answer.value.keys[j], now.answer.value.entries[j];
    assert SeenBySome(now.results, key, entry);
    var name, m :| name in now.results && 0 <= m < |now.results[name].keys| && m < |now.results[name].entries| &&
      now.results[name].keys[m] == key && now.results[name].entries[m] == entry;
    var r := now.results[name];
    assert Snapshot(conjuncts, run, |conjuncts|, name, r);
    var t: int, i: nat :| ScansAt(run, t, i) && i < |conjuncts| && LastFor(conjuncts, |conjuncts|, name, i) &&
      IsScan(run[t].records, name, conjuncts[i].Wanted(), r);
    assert Survives(conjuncts, i);
    assert run[t].records[key] == entry;
  }

  /** Every name with a partial result belongs to a surviving conjunct. */
  lemma SurvivorFor(conjuncts: seq<Conjunct>, run: seq<World>, name: string) returns (i: nat)
    requires IsRun(conjuncts, run) && run[|run| - 1].scanned == |conjuncts| && name in run[|run| - 1].results
    ensures Survives(conjuncts, i) && conjuncts[i].name == name
  {
    InvariantHolds(conjuncts, run);
    var r := run[|run| - 1].results[name];
    assert Snapshot(conjuncts, run, |conjuncts|, name, r);
    var t: int, j: nat :| ScansAt(run, t, j) && j < |conjuncts| && LastFor(conjuncts, |conjuncts|, name, j) &&
      IsScan(run[t].records, name, conjuncts[j].Wanted(), r);
    i := j;
  }

  /** The partial result of a surviving conjunct holds the key exactly when the key matched at its scan. */
  lemma SurvivorHeld(conjuncts: seq<Conjunct>, run: seq<World>, i: nat, key: string)
    requires IsRun(conjuncts, run) && run[|run| - 1].scanned == |conjuncts| && Survives(conjuncts, i)
    ensures conjuncts[i].name in run[|run| - 1].results
    ensures key in run[|run| - 1].results[conjuncts[i].name].keys <==> MatchedWhenScanned(conjuncts, run, i, key)
  {
    InvariantHolds(conjuncts, run);
    SurvivorSnapshot(conjuncts, run, i, run[|run| - 1].results[conjuncts[i].name], key);
  }

  /** Each conjunct is scanned at one moment only, so the kept result is the scan of that moment. */
  lemma SurvivorSnapshot(conjuncts: seq<Conjunct>, run: seq<World>, i: nat, r: QueryResult, key: string)
    requires IsRun(conjuncts, run)
    requires Survives(conjuncts, i) && Snapshot(conjuncts, run, |conjuncts|, conjuncts[i].name, r)
    ensures key in r.keys <==> MatchedWhenScanned(conjuncts, run, i, key)
  {
    var name := conjuncts[i].name;
    var t: int, j: nat :| ScansAt(run, t, j) && j < |conjuncts| && LastFor(conjuncts, |conjuncts|, name, j) &&
      IsScan(run[t].records, name, conjuncts[j].Wanted(), r);
    assert i == j;
    MatchedAt(conjuncts, run, i, t, key);
  }

  lemma ScannedOnce(conjuncts: seq<Conjunct>, run: seq<World>, i: nat, t: int, t': int)
    requires IsRun(conjuncts, run) && ScansAt(run, t, i) && ScansAt(run, t', i)
    ensures t == t'
  {
    if t' < t {
      ScannedGrows(conjuncts, run, t' + 1, t);
    } else if t < t' {
      ScannedGrows(conjuncts, run, t + 1, t');
    }
  }

  lemma MatchedAt(conjuncts: seq<Conjunct>, run: seq<World>, i: nat, t: int, key: string)
    requires IsRun(conjuncts, run) && i < |conjuncts| && ScansAt(run, t, i)
    ensures MatchedWhenScanned(conjuncts, run, i, key) <==>
            key in run[t].records && HasTag(run[t].records[key].tags, conjuncts[i].name, conjuncts[i].Wanted())
  {
    forall t': int | ScansAt(run, t', i)
      ensures t' == t
    {
      ScannedOnce(conjuncts, run, i, t, t');
    }
  }

  lemma {:induction false} ScannedGrows(conjuncts: seq<Conjunct>, run: seq<World>, early: nat, late: nat)
    requires IsRun(conjuncts, run) && early <= late < |run|
    ensures run[early].scanned <= run[late].scanned
    decreases late
  {
    if early < late {
      ScannedGrows(conjuncts, run, early, late - 1);
      assert Step(conjuncts, run[late - 1], run[late - 1 + 1]);
    }
  }

  /** A key whose entry nobody changes during the run is returned, with that entry, exactly when its tags satisfy the
      surviving conjuncts: for such keys the query is as good as atomic. */
  lemma UndisturbedKey(conjuncts: seq<Conjunct>, run: seq<World>, key: string, entry: Entry)
    requires conjuncts != [] && IsRun(conjuncts, run) && run[|run| - 1].answer.Some?
    requires forall t :: 0 <= t < |run| ==> key in run[t].records && run[t].records[key] == entry
    ensures WellFormed(run[|run| - 1].answer.value)
    ensures var answer := run[|run| - 1].answer.value;
            && (key in answer.keys <==> SatisfiesSurviving(entry.tags, conjuncts))
            && forall j :: 0 <= j < |answer.keys| && answer.keys[j] == key ==> answer.entries[j] == entry
  {
    ConcurrentQuerySound(conjuncts, run, key);
    AnswerIsCommon(conjuncts, run);
    forall i: nat | Survives(conjuncts, i)
      ensures MatchedWhenScanned(conjuncts, run, i, key) <==>
              HasTag(entry.tags, conjuncts[i].name, conjuncts[i].Wanted())
    {
      MatchedIfUndisturbed(conjuncts, run, i, key, entry);
    }
    SatisfiesBySurvivors(conjuncts, entry.tags);
    var answer := run[|run| - 1].answer.value;
    forall j | 0 <= j < |answer.keys| && answer.keys[j] == key
      ensures answer.entries[j] == entry
    {
      assert StoredAtSomeScan(conjuncts, run, answer.keys[j], answer.entries[j]);
    }
  }

  lemma MatchedIfUndisturbed(conjuncts: seq<Conjunct>, run: seq<World>, i: nat, key: string, entry: Entry)
    requires IsRun(conjuncts, run) && run[|run| - 1].scanned == |conjuncts| && Survives(conjuncts, i)
    requires forall t :: 0 <= t < |run| ==> key in run[t].records && run[t].records[key] == entry
    ensures MatchedWhenScanned(conjuncts, run, i, key) <==> HasTag(entry.tags, conjuncts[i].name, conjuncts[i].Wanted())
  {
    var t := ScanMoment(conjuncts, run, i);
    assert ScansAt(run, t, i) && run[t].records[key] == entry;
  }

  lemma ScanMoment(conjuncts: seq<Conjunct>, run: seq<World>, i: nat) returns (t: int)
    requires IsRun(conjuncts, run) && run[|run| - 1].scanned == |conjuncts| && Survives(conjuncts, i)
    ensures ScansAt(run, t, i)
  {
    InvariantHolds(conjuncts, run);
    var name := conjuncts[i].name;
    assert Snapshot(conjuncts, run, |conjuncts|, name, run[|run| - 1].results[name]);
    var t', j: nat :| ScansAt(run, t', j) && j < |conjuncts| && LastFor(conjuncts, |conjuncts|, name, j);
    assert i == j;
    t := t';
  }

  /** Satisfying the surviving conjuncts is satisfying each conjunct that survives. */
  lemma SatisfiesBySurvivors(conjuncts: seq<Conjunct>, tags: seq<Tag>)
    ensures SatisfiesSurviving(tags, conjuncts) <==>
            forall i: nat :: Survives(conjuncts, i) ==> HasTag(tags, conjuncts[i].name, conjuncts[i].Wanted())
  {
    var surviving := Surviving(conjuncts);
    forall i: nat | Survives(conjuncts, i)
      ensures conjuncts[i].name in surviving && surviving[conjuncts[i].name] == conjuncts[i].Wanted()
    {
      SurvivorWanted(conjuncts, i);
    }
    forall name | name in surviving
      ensures exists i: nat :: Survives(conjuncts, i) && conjuncts[i].name == name
    {
      var i := SurvivorNamed(conjuncts, name);
    }
  }

  lemma {:induction false} SurvivorWanted(conjuncts: seq<Conjunct>, i: nat)
    requires Survives(conjuncts, i)
    ensures conjuncts[i].name in Surviving(conjuncts)
    ensures Surviving(conjuncts)[conjuncts[i].name] == conjuncts[i].Wanted()
    decreases |conjuncts|
  {
    var n := |conjuncts| - 1;
    if i < n {
      assert Survives(conjuncts[..n], i);
      SurvivorWanted(conjuncts[..n], i);
      assert conjuncts[n].name != conjuncts[i].name;
    }
  }

  lemma {:induction false} SurvivorNamed(conjuncts: seq<Conjunct>, name: string) returns (i: nat)
    requires name in Surviving(conjuncts)
    ensures Survives(conjuncts, i) && conjuncts[i].name == name
    decreases |conjuncts|
  {
    var n := |conjuncts| - 1;
    if conjuncts[n].name == name {
      i := n;
    } else {
      i := SurvivorNamed(conjuncts[..n], name);
      assert conjuncts[i] == conjuncts[..n][i];
    }
  }

  // ---- which queries are atomic --------------------------------------------------------------

  predicate OneName(conjuncts: seq<Conjunct>) {
    forall i :: 0 <= i < |conjuncts| ==> conjuncts[i].name == conjuncts[0].name
  }

  /** At some moment of the run the answer was what an undisturbed query would have returned. */
  ghost predicate AnswersSomeMoment(conjuncts: seq<Conjunct>, run: seq<World>)
    requires run != [] && run[|run| - 1].answer.Some?
  {
    exists t :: 0 <= t < |run| && IsAnswer(run[t].records, conjuncts, run[|run| - 1].answer.value)
  }

  /** A query answers as of one moment, whatever is written meanwhile, exactly when all its conjuncts share one name. */
  lemma QueryAtomicExactlyWhen(conjuncts: seq<Conjunct>)
    requires conjuncts != []
    ensures OneName(conjuncts) <==>
            forall run: seq<World> :: IsRun(conjuncts, run) && run[|run| - 1].answer.Some? ==>
              AnswersSomeMoment(conjuncts, run)
  {
    if OneName(conjuncts) {
      forall run: seq<World> | IsRun(conjuncts, run) && run[|run| - 1].answer.Some?
        ensures AnswersSomeMoment(conjuncts, run)
      {
        OneNameIsAtomic(conjuncts, run);
      }
    } else {
      var run := QueryNotAtomic(conjuncts);
    }
  }

  /** The moment is that of the last scan. */
  lemma OneNameIsAtomic(conjuncts: seq<Conjunct>, run: seq<World>)
    requires conjuncts != [] && OneName(conjuncts) && IsRun(conjuncts, run) && run[|run| - 1].answer.Some?
    ensures AnswersSomeMoment(conjuncts, run)
  {
    AnswerIsCommon(conjuncts, run);
    var n := |conjuncts| - 1;
    OnlyLastSurvives(conjuncts);
    var t := ScanMoment(conjuncts, run, n);
    var answer := run[|run| - 1].answer.value;
    forall key
      ensures key in answer.keys <==>
              key in run[t].records && SatisfiesSurviving(run[t].records[key].tags, conjuncts)
    {
      ConcurrentQuerySound(conjuncts, run, key);
      MatchedAt(conjuncts, run, n, t, key);
      if key in run[t].records {
        SatisfiesBySurvivors(conjuncts, run[t].records[key].tags);
      }
    }
    forall j | 0 <= j < |answer.keys|
      ensures answer.keys[j] in run[t].records && answer.entries[j] == run[t].records[answer.keys[j]]
    {
      EntryStoredAtSomeScan(conjuncts, run, j);
      var t': int :| ScansAt(run, t', n) && answer.keys[j] in run[t'].records &&
        run[t'].records[answer.keys[j]] == answer.entries[j];
      ScannedOnce(conjuncts, run, n, t, t');
    }
  }

  lemma OnlyLastSurvives(conjuncts: seq<Conjunct>)
    requires conjuncts != [] && OneName(conjuncts)
    ensures forall i: nat :: Survives(conjuncts, i) <==> i == |conjuncts| - 1
  {
    forall i: nat | Survives(conjuncts, i)
      ensures i == |conjuncts| - 1
    {
      assert conjuncts[|conjuncts| - 1].name == conjuncts[i].name;
    }
    assert Survives(conjuncts, |conjuncts| - 1);
  }

  // ---- a run that answers as of no moment ----------------------------------------------------

  function EntryFor(c: Conjunct): Entry {
    Entry([], [Tag(c.name, c.Wanted())])
  }

  function Found(conjuncts: seq<Conjunct>): map<string, QueryResult> {
    if conjuncts == [] then map[]
    else
      var c := conjuncts[|conjuncts| - 1];
      Found(conjuncts[..|conjuncts| - 1])[c.name := QueryResult(["k"], [EntryFor(c)])]
  }

  /** The run up to the scan of the first n conjuncts: before each scan the key "k" gets the one tag it asks for. */
  function Drift(conjuncts: seq<Conjunct>, n: nat): (run: seq<World>)
    requires conjuncts != [] && n <= |conjuncts|
    ensures run != []
  {
    if n == 0 then [World(map["k" := EntryFor(conjuncts[0])], 0, map[], None)]
    else
      var records := map["k" := EntryFor(conjuncts[n - 1])];
      Drift(conjuncts, n - 1) + [World(records, n - 1, Found(conjuncts[..n - 1]), None)] +
        [World(records, n, Found(conjuncts[..n]), None)]
  }

  lemma RunSnoc(conjuncts: seq<Conjunct>, run: seq<World>, w: World)
    requires IsRun(conjuncts, run) && Step(conjuncts, run[|run| - 1], w)
    ensures IsRun(conjuncts, run + [w])
  {
    var longer := run + [w];
    forall t | 0 <= t < |longer| - 1
      ensures Step(conjuncts, longer[t], longer[t + 1])
    {
      if t < |run| - 1 {
        assert Step(conjuncts, run[t], run[t + 1]);
      }
    }
  }

  /** The key is always stored, with just the tag that some conjunct asks for. */
  ghost predicate OnlyTagged(conjuncts: seq<Conjunct>, w: World) {
    exists i :: 0 <= i < |conjuncts| && w.records == map["k" := EntryFor(conjuncts[i])]
  }

  lemma {:induction false} DriftIsRun(conjuncts: seq<Conjunct>, n: nat)
    requires conjuncts != [] && n <= |conjuncts|
    ensures IsRun(conjuncts, Drift(conjuncts, n))
    ensures forall t :: 0 <= t < |Drift(conjuncts, n)| ==> OnlyTagged(conjuncts, Drift(conjuncts, n)[t])
    ensures var now := Drift(conjuncts, n)[|Drift(conjuncts, n)| - 1];
            now.scanned == n && now.results == Found(conjuncts[..n]) && now.answer.None?
  {
    if n == 0 {
      assert OnlyTagged(conjuncts, Drift(conjuncts, 0)[0]);
    } else {
      DriftIsRun(conjuncts, n - 1);
      var before := Drift(conjuncts, n - 1);
      var w, c := before[|before| - 1], conjuncts[n - 1];
      var written := w.(records := map["k" := EntryFor(c)]);
      var scanned := written.(scanned := n, results := Found(conjuncts[..n]));
      DriftWrites(conjuncts, w, c);
      DriftScans(conjuncts, written, c);
      RunSnoc(conjuncts, before, written);
      RunSnoc(conjuncts, before + [written], scanned);
      assert OnlyTagged(conjuncts, written) && OnlyTagged(conjuncts, scanned);
      assert Drift(conjuncts, n) == before + [written] + [scanned];
    }
  }

  lemma DriftWrites(conjuncts: seq<Conjunct>, w: World, c: Conjunct)
    requires OnlyTagged(conjuncts, w)
    ensures WriteStep(w, w.(records := map["k" := EntryFor(c)]))
  {
    var ops := [Operation("k", Some([]), EntryFor(c).tags)];
    assert ops[0].key == "k" && BatchError(ops).None? && ops[1..] == [];
    assert ApplyAll(w.records, ops) == ApplyAll(Apply(w.records, ops[0]), ops[1..]) == Apply(w.records, ops[0]);
    assert AfterWrite(w.records, Batch(ops)) == map["k" := EntryFor(c)];
  }

  lemma DriftScans(conjuncts: seq<Conjunct>, w: World, c: Conjunct)
    requires w.scanned < |conjuncts| && c == conjuncts[w.scanned] && w.records == map["k" := EntryFor(c)]
    requires w.results == Found(conjuncts[..w.scanned])
    ensures ScanStep(conjuncts, w, w.(scanned := w.scanned + 1, results := Found(conjuncts[..w.scanned + 1])))
  {
    assert EntryFor(c).tags[0].name == c.name;
    var r := QueryResult(["k"], [EntryFor(c)]);
    assert IsScan(w.records, c.name, c.Wanted(), r);
    assert conjuncts[..w.scanned + 1][..w.scanned] == conjuncts[..w.scanned];
  }

  lemma {:induction false} FoundEverywhere(conjuncts: seq<Conjunct>)
    ensures forall name :: name in Found(conjuncts) ==> Found(conjuncts)[name].keys == ["k"]
    decreases |conjuncts|
  {
    if conjuncts != [] {
      FoundEverywhere(conjuncts[..|conjuncts| - 1]);
    }
  }

  lemma SameKeyMerges(results: map<string, QueryResult>, name: string, entry: Entry)
    requires forall n :: n in results ==> results[n].keys == ["k"]
    requires name in results && results[name] == QueryResult(["k"], [entry])
    ensures IsCommon(results, QueryResult(["k"], [entry]))
  {
    var merged := QueryResult(["k"], [entry]);
    assert results[name].keys[0] == "k" && results[name].entries[0] == entry;
    assert SeenBySome(results, "k", entry);
    forall key
      ensures key in merged.keys <==> FoundByAll(results, key)
    {
      assert FoundByAll(results, key) ==> key in results[name].keys;
    }
  }

  /** With two different names there is a run that returns a key whose tags satisfied the conjuncts at no moment. */
  lemma QueryNotAtomic(conjuncts: seq<Conjunct>) returns (run: seq<World>)
    requires conjuncts != [] && !OneName(conjuncts)
    ensures IsRun(conjuncts, run) && run[|run| - 1].answer.Some? && "k" in run[|run| - 1].answer.value.keys
    ensures forall t :: 0 <= t < |run| ==>
              "k" in run[t].records && !SatisfiesSurviving(run[t].records["k"].tags, conjuncts)
    ensures !AnswersSomeMoment(conjuncts, run)
  {
    DriftIsRun(conjuncts, |conjuncts|);
    FoundEverywhere(conjuncts);
    assert conjuncts[..|conjuncts|] == conjuncts;
    var last := conjuncts[|conjuncts| - 1];
    SameKeyMerges(Found(conjuncts), last.name, EntryFor(last));
    var before := Drift(conjuncts, |conjuncts|);
    var answer := QueryResult(["k"], [EntryFor(last)]);
    var answered := before[|before| - 1].(answer := Some(answer));
    assert MergeStep(conjuncts, before[|before| - 1], answered);
    RunSnoc(conjuncts, before, answered);
    run := before + [answered];
    assert answer.keys[0] == "k";
    forall t | 0 <= t < |run|
      ensures "k" in run[t].records && !SatisfiesSurviving(run[t].records["k"].tags, conjuncts)
    {
      assert OnlyTagged(conjuncts, before[if t < |before| then t else |before| - 1]);
      OneTagIsNotEnough(conjuncts, run[t]);
    }
  }

  lemma OneTagIsNotEnough(conjuncts: seq<Conjunct>, w: World)
    requires !OneName(conjuncts) && OnlyTagged(conjuncts, w)
    ensures !SatisfiesSurviving(w.records["k"].tags, conjuncts)
  {
    var i :| 0 <= i < |conjuncts| && w.records == map["k" := EntryFor(conjuncts[i])];
    var j :| 0 <= j < |conjuncts| && conjuncts[j].name != conjuncts[i].name;
    SurvivingIsAConjunct(conjuncts);
    var name := conjuncts[j].name;
    assert !HasTag(EntryFor(conjuncts[i]).tags, name, Surviving(conjuncts)[name]);
  }
}
