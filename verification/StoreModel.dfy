/** What the in-memory tag store means: its records, each write as a function on the records, and the query language
    as a filter. The classes in MemStore.dfy are proved against these definitions. */
module StoreModel {
  import opened Outcomes
  import opened GoText

  datatype Tag = Tag(name: string, value: string)
  datatype Entry = Entry(value: Bytes, tags: seq<Tag>)
  type Records = map<string, Entry>

  /** A nil value asks for a deletion. */
  datatype Operation = Operation(key: string, value: Option<Bytes>, tags: seq<Tag>)

  datatype StoreError =
    | EmptyKey | NilValue | InvalidTagName | InvalidTagValue | DataNotFound | NoKeys | EmptyBatch
    | InvalidExpression | UnsupportedOption | StoreNotFound | EmptyStoreName | IteratorExhausted

  // ---- writes --------------------------------------------------------------------------------

  /** The error for the first tag that has a colon in its name, or else in its value. */
  function TagError(tags: seq<Tag>): Option<StoreError> {
    if tags == [] then None
    else if ':' in tags[0].name then Some(InvalidTagName)
    else if ':' in tags[0].value then Some(InvalidTagValue)
    else TagError(tags[1..])
  }

  function PutError(key: string, value: Option<Bytes>, tags: seq<Tag>): Option<StoreError> {
    if key == "" then Some(EmptyKey)
    else if value.None? then Some(NilValue)
    else TagError(tags)
  }

  function AfterPut(records: Records, key: string, value: Option<Bytes>, tags: seq<Tag>): Records {
    if PutError(key, value, tags).Some? then records else records[key := Entry(value.value, tags)]
  }

  function AfterDelete(records: Records, key: string): Records {
    if key == "" then records else records - {key}
  }

  function Apply(records: Records, op: Operation): Records {
    if op.value.None? then records - {op.key} else records[op.key := Entry(op.value.value, op.tags)]
  }

  function ApplyAll(records: Records, ops: seq<Operation>): Records
    decreases |ops|
  {
    if ops == [] then records else ApplyAll(Apply(records, ops[0]), ops[1..])
  }

  function BatchError(ops: seq<Operation>): Option<StoreError> {
    if ops == [] then Some(EmptyBatch)
    else if exists i :: 0 <= i < |ops| && ops[i].key == "" then Some(EmptyKey)
    else None
  }

  function AfterBatch(records: Records, ops: seq<Operation>): Records {
    if BatchError(ops).Some? then records else ApplyAll(records, ops)
  }

  lemma {:induction false} ApplyAllSnoc(records: Records, ops: seq<Operation>, op: Operation)
    ensures ApplyAll(records, ops + [op]) == Apply(ApplyAll(records, ops), op)
    decreases |ops|
  {
    if ops == [] {
      assert ops + [op] == [op];
    } else {
      assert (ops + [op])[1..] == ops[1..] + [op];
      ApplyAllSnoc(Apply(records, ops[0]), ops[1..], op);
    }
  }

  /** The last operation of a batch that names the key. */
  function LastNaming(ops: seq<Operation>, key: string): Option<Operation> {
    if ops == [] then None
    else if ops[|ops| - 1].key == key then Some(ops[|ops| - 1])
    else LastNaming(ops[..|ops| - 1], key)
  }

  function Lookup(records: Records, key: string): Option<Entry> {
    if key in records then Some(records[key]) else None
  }

  /** An accepted batch gives each key the entry of the last operation naming it; keys no operation names keep theirs.
      A batch with no operation or with any empty key changes nothing at all. */
  lemma {:induction false} BatchDecidedByLastOperation(records: Records, ops: seq<Operation>, key: string)
    ensures BatchError(ops).Some? ==> AfterBatch(records, ops) == records
    ensures BatchError(ops).None? ==>
              Lookup(AfterBatch(records, ops), key) ==
              match LastNaming(ops, key)
              case None => Lookup(records, key)
              case Some(op) => if op.value.None? then None else Some(Entry(op.value.value, op.tags))
  {
    ApplyAllAtKey(records, ops, key);
  }

  lemma {:induction false} ApplyAllAtKey(records: Records, ops: seq<Operation>, key: string)
    ensures Lookup(ApplyAll(records, ops), key) ==
            match LastNaming(ops, key)
            case None => Lookup(records, key)
            case Some(op) => if op.value.None? then None else Some(Entry(op.value.value, op.tags))
    decreases |ops|
  {
    if ops != [] {
      var front, last := ops[..|ops| - 1], ops[|ops| - 1];
      assert ops == front + [last];
      ApplyAllSnoc(records, front, last);
      ApplyAllAtKey(records, front, key);
    }
  }

  /** The same operations issued as single Put and Delete calls, stopping at the first one that fails. */
  function RunSingly(records: Records, ops: seq<Operation>): (Records, Option<StoreError>)
    decreases |ops|
  {
    if ops == [] then (records, None)
    else
      var op := ops[0];
      if op.value.None? then
        if op.key == "" then (records, Some(EmptyKey)) else RunSingly(AfterDelete(records, op.key), ops[1..])
      else
        var error := PutError(op.key, op.value, op.tags);
        if error.Some? then (records, error) else RunSingly(AfterPut(records, op.key, op.value, op.tags), ops[1..])
  }

  predicate ColonFree(tags: seq<Tag>) {
    forall i :: 0 <= i < |tags| ==> ':' !in tags[i].name && ':' !in tags[i].value
  }

  lemma TagErrorMeansColon(tags: seq<Tag>)
    ensures TagError(tags).None? <==> ColonFree(tags)
  {
    if tags != [] {
      TagErrorMeansColon(tags[1..]);
      assert forall i :: 0 <= i < |tags| - 1 ==> tags[1..][i] == tags[i + 1];
      assert forall i :: 1 <= i < |tags| ==> tags[i] == tags[1..][i - 1];
    }
  }

  /** The error is about the first tag with a colon, and about its name if there is one in it. */
  lemma {:induction false} TagErrorIsFirst(tags: seq<Tag>)
    ensures TagError(tags).Some? ==>
              exists i :: 0 <= i < |tags| && ColonFree(tags[..i]) &&
                if ':' in tags[i].name then TagError(tags) == Some(InvalidTagName)
                else ':' in tags[i].value && TagError(tags) == Some(InvalidTagValue)
  {
    if TagError(tags).Some? {
      if ':' in tags[0].name || ':' in tags[0].value {
        assert ColonFree(tags[..0]);
      } else {
        TagErrorIsFirst(tags[1..]);
        var i :| 0 <= i < |tags| - 1 && ColonFree(tags[1..][..i]) &&
          if ':' in tags[1..][i].name then TagError(tags[1..]) == Some(InvalidTagName)
          else ':' in tags[1..][i].value && TagError(tags[1..]) == Some(InvalidTagValue);
        assert tags[..i + 1] == [tags[0]] + tags[1..][..i] && tags[i + 1] == tags[1..][i];
      }
    }
  }

  /** A batch that Put and Delete would accept one by one: no empty key, and no colon in the tags of a stored value. */
  predicate AcceptedSingly(ops: seq<Operation>) {
    forall i :: 0 <= i < |ops| ==> ops[i].key != "" && (ops[i].value.Some? ==> ColonFree(ops[i].tags))
  }

  lemma {:induction false} RunSinglyIsApplyAll(records: Records, ops: seq<Operation>)
    ensures RunSingly(records, ops).1.None? <==> AcceptedSingly(ops)
    ensures AcceptedSingly(ops) ==> RunSingly(records, ops).0 == ApplyAll(records, ops)
    decreases |ops|
  {
    if ops != [] {
      var op := ops[0];
      TagErrorMeansColon(op.tags);
      assert AcceptedSingly(ops) <==>
             (op.key != "" && (op.value.Some? ==> ColonFree(op.tags)) && AcceptedSingly(ops[1..])) by {
        assert forall i :: 0 <= i < |ops| - 1 ==> ops[1..][i] == ops[i + 1];
        assert forall i :: 1 <= i < |ops| ==> ops[i] == ops[1..][i - 1];
      }
      RunSinglyIsApplyAll(Apply(records, op), ops[1..]);
      if op.value.None? && op.key != "" {
        assert AfterDelete(records, op.key) == Apply(records, op);
      }
    }
  }

  /** A non-empty batch succeeds and ends where the single calls end exactly when every stored value has colon-free
      tags and no key is empty: Batch itself never looks at the tags. */
  lemma BatchRefinesSingleSteps(records: Records, ops: seq<Operation>)
    requires ops != []
    ensures AcceptedSingly(ops) <==>
            BatchError(ops).None? && RunSingly(records, ops) == (AfterBatch(records, ops), None)
  {
    RunSinglyIsApplyAll(records, ops);
  }

  // ---- the query language --------------------------------------------------------------------

  datatype Conjunct = NameOnly(name: string) | NameValue(name: string, val: string) {
    /** The value to scan for; an empty one matches any. */
    function Wanted(): string {
      if NameOnly? then "" else val
    }

    function Print(): string {
      if NameOnly? then name else name + ":" + val
    }
  }

  function ParseConjunct(text: string): Option<Conjunct> {
    var parts := Split(text, ":");
    if |parts| == 1 then Some(NameOnly(parts[0]))
    else if |parts| == 2 then Some(NameValue(parts[0], parts[1]))
    else None
  }

  function ParseAll(texts: seq<string>): (r: Option<seq<Conjunct>>)
    ensures r.Some? ==> |r.value| == |texts|
    ensures r.Some? ==> forall i :: 0 <= i < |texts| ==> ParseConjunct(texts[i]) == Some(r.value[i])
    ensures r.None? ==> exists i :: 0 <= i < |texts| && ParseConjunct(texts[i]).None?
  {
    if texts == [] then Some([])
    else
      var first := ParseConjunct(texts[0]);
      var rest := ParseAll(texts[1..]);
      if first.None? || rest.None? then
        assert rest.None? ==> exists i :: 0 <= i < |texts| && ParseConjunct(texts[i]).None? by {
          if rest.None? {
            var i :| 0 <= i < |texts| - 1 && ParseConjunct(texts[1..][i]).None?;
            assert texts[i + 1] == texts[1..][i];
          }
        }
        None
      else Some([first.value] + rest.value)
  }

  /** The conjuncts Query reads out of an expression; None is the invalid-format error. */
  function ParseQuery(expression: string): Option<seq<Conjunct>> {
    if expression == "" then None else ParseAll(Split(expression, "&&"))
  }

  function PrintAll(conjuncts: seq<Conjunct>): (texts: seq<string>)
    ensures |texts| == |conjuncts|
    ensures forall i :: 0 <= i < |texts| ==> texts[i] == conjuncts[i].Print()
  {
    seq(|conjuncts|, i requires 0 <= i < |conjuncts| => conjuncts[i].Print())
  }

  function PrintQuery(conjuncts: seq<Conjunct>): string {
    Join(PrintAll(conjuncts), "&&")
  }

  predicate NoColon(c: Conjunct) {
    ':' !in c.name && (c.NameValue? ==> ':' !in c.val)
  }

  lemma ParseConjunctAfterPrint(c: Conjunct)
    ensures ParseConjunct(c.Print()) == Some(c) <==> NoColon(c)
  {
    var parts := if c.NameOnly? then [c.name] else [c.name, c.val];
    assert c.Print() == Join(parts, ":");
    SplitAfterJoin(parts, ":");
    SplittableBySingle(parts, ':');
    if c.NameValue? {
      assert parts[0] == c.name && parts[1] == c.val;
    }
    if ParseConjunct(c.Print()) == Some(c) {
      assert Split(c.Print(), ":") == parts;
    }
  }

  predicate EndsInAmpersand(s: string) {
    s != "" && s[|s| - 1] == '&'
  }

  lemma AmpersandSplittable(parts: seq<string>)
    requires parts != []
    ensures Splittable(parts, "&&") <==>
            (forall i :: 0 <= i < |parts| ==> !Contains(parts[i], "&&")) &&
            (forall i :: 0 <= i < |parts| - 1 ==> !EndsInAmpersand(parts[i]))
  {
    forall i | 0 <= i < |parts| - 1
      ensures Index(parts[i] + "&&", "&&") == |parts[i]| <==>
              !Contains(parts[i], "&&") && !EndsInAmpersand(parts[i])
    {
      AmpersandBoundary(parts[i]);
    }
  }

  lemma AmpersandBoundary(p: string)
    ensures Index(p + "&&", "&&") == |p| <==> !Contains(p, "&&") && !EndsInAmpersand(p)
  {
    var whole := p + "&&";
    assert OccursAt(whole, "&&", |p|);
    forall j: nat | j + 2 <= |p|
      ensures OccursAt(whole, "&&", j) == OccursAt(p, "&&", j)
    {
      assert whole[j..j + 2] == p[j..j + 2];
    }
    if p != "" {
      var j := |p| - 1;
      assert whole[j..j + 2] == [p[j], '&'];
      assert OccursAt(whole, "&&", j) <==> p[j] == '&';
    }
  }

  /** Printing conjuncts and reading the text back gives the same conjuncts in exactly these cases. */
  lemma QueryExpressionRoundTrip(conjuncts: seq<Conjunct>)
    requires conjuncts != []
    ensures ParseQuery(PrintQuery(conjuncts)) == Some(conjuncts) <==>
            && PrintQuery(conjuncts) != ""
            && (forall i :: 0 <= i < |conjuncts| ==> NoColon(conjuncts[i]) && !Contains(conjuncts[i].Print(), "&&"))
            && (forall i :: 0 <= i < |conjuncts| - 1 ==> !EndsInAmpersand(conjuncts[i].Print()))
  {
    var texts := PrintAll(conjuncts);
    SplitAfterJoin(texts, "&&");
    AmpersandSplittable(texts);
    ParseAllAfterPrint(conjuncts);
    if ParseQuery(PrintQuery(conjuncts)) == Some(conjuncts) {
      ReadBackPrints(Split(PrintQuery(conjuncts), "&&"), conjuncts);
    }
  }

  lemma ParseAllAfterPrint(conjuncts: seq<Conjunct>)
    ensures ParseAll(PrintAll(conjuncts)) == Some(conjuncts) <==>
            forall i :: 0 <= i < |conjuncts| ==> NoColon(conjuncts[i])
  {
    var texts := PrintAll(conjuncts);
    forall i | 0 <= i < |conjuncts|
      ensures ParseConjunct(texts[i]) == Some(conjuncts[i]) <==> NoColon(conjuncts[i])
    {
      ParseConjunctAfterPrint(conjuncts[i]);
    }
    if forall i :: 0 <= i < |conjuncts| ==> NoColon(conjuncts[i]) {
      assert ParseAll(texts).Some?;
      assert ParseAll(texts).value == conjuncts;
    }
  }

  /** A text read as a conjunct is what that conjunct prints. */
  lemma ReadBackPrints(texts: seq<string>, conjuncts: seq<Conjunct>)
    requires ParseAll(texts) == Some(conjuncts)
    ensures texts == PrintAll(conjuncts)
  {
    forall i | 0 <= i < |texts|
      ensures texts[i] == conjuncts[i].Print()
    {
      JoinAfterSplit(texts[i], ":");
      assert ParseConjunct(texts[i]) == Some(conjuncts[i]);
      var parts := Split(texts[i], ":");
      if |parts| == 2 {
        assert parts[1..] == [parts[1]];
      }
    }
  }

  // ---- the meaning of a query ----------------------------------------------------------------

  predicate HasTag(tags: seq<Tag>, name: string, wanted: string) {
    exists i :: 0 <= i < |tags| && tags[i].name == name && (wanted == "" || tags[i].value == wanted)
  }

  /** Partial results are kept per tag name, so the last conjunct for a name is the one that counts. */
  function Surviving(conjuncts: seq<Conjunct>): map<string, string> {
    if conjuncts == [] then map[]
    else
      var last := conjuncts[|conjuncts| - 1];
      Surviving(conjuncts[..|conjuncts| - 1])[last.name := last.Wanted()]
  }

  predicate SatisfiesSurviving(tags: seq<Tag>, conjuncts: seq<Conjunct>) {
    var surviving := Surviving(conjuncts);
    forall name :: name in surviving ==> HasTag(tags, name, surviving[name])
  }

  predicate SatisfiesEvery(tags: seq<Tag>, conjuncts: seq<Conjunct>) {
    forall i :: 0 <= i < |conjuncts| ==> HasTag(tags, conjuncts[i].name, conjuncts[i].Wanted())
  }

  lemma {:induction false} SurvivingIsAConjunct(conjuncts: seq<Conjunct>)
    ensures forall i :: 0 <= i < |conjuncts| ==> conjuncts[i].name in Surviving(conjuncts)
    ensures forall name :: name in Surviving(conjuncts) ==>
              exists i :: 0 <= i < |conjuncts| && conjuncts[i].name == name &&
                conjuncts[i].Wanted() == Surviving(conjuncts)[name]
    decreases |conjuncts|
  {
    if conjuncts != [] {
      var n := |conjuncts| - 1;
      var front := conjuncts[..n];
      SurvivingIsAConjunct(front);
      forall i | 0 <= i < |conjuncts|
        ensures conjuncts[i].name in Surviving(conjuncts)
      {
        if i < n { assert front[i] == conjuncts[i]; }
      }
      forall name | name in Surviving(conjuncts)
        ensures exists i :: 0 <= i < |conjuncts| && conjuncts[i].name == name &&
                  conjuncts[i].Wanted() == Surviving(conjuncts)[name]
      {
        if name == conjuncts[n].name {
          assert conjuncts[n].Wanted() == Surviving(conjuncts)[name];
        } else {
          var i :| 0 <= i < |front| && front[i].name == name && front[i].Wanted() == Surviving(front)[name];
          assert conjuncts[i] == front[i];
        }
      }
    }
  }

  /** No conjunct asks for more than the surviving conjunct of its name. */
  predicate NothingLost(conjuncts: seq<Conjunct>) {
    forall i :: 0 <= i < |conjuncts| ==>
      conjuncts[i].Wanted() == "" ||
      (conjuncts[i].name in Surviving(conjuncts) && conjuncts[i].Wanted() == Surviving(conjuncts)[conjuncts[i].name])
  }

  /** The query is the full conjunction, for every possible entry, exactly when nothing is lost. */
  lemma QueryIsConjunctionExactlyWhen(conjuncts: seq<Conjunct>)
    ensures NothingLost(conjuncts) <==>
            forall tags: seq<Tag> :: SatisfiesSurviving(tags, conjuncts) <==> SatisfiesEvery(tags, conjuncts)
  {
    if NothingLost(conjuncts) {
      forall tags: seq<Tag>
        ensures SatisfiesSurviving(tags, conjuncts) <==> SatisfiesEvery(tags, conjuncts)
      {
        NothingLostIsEnough(conjuncts, tags);
      }
    } else {
      var tags := LossWitness(conjuncts);
      assert SatisfiesSurviving(tags, conjuncts) && !SatisfiesEvery(tags, conjuncts);
    }
  }

  lemma NothingLostIsEnough(conjuncts: seq<Conjunct>, tags: seq<Tag>)
    requires NothingLost(conjuncts)
    ensures SatisfiesSurviving(tags, conjuncts) <==> SatisfiesEvery(tags, conjuncts)
  {
    SurvivingIsAConjunct(conjuncts);
    var surviving := Surviving(conjuncts);
    if SatisfiesSurviving(tags, conjuncts) {
      forall i | 0 <= i < |conjuncts|
        ensures HasTag(tags, conjuncts[i].name, conjuncts[i].Wanted())
      {
        assert HasTag(tags, conjuncts[i].name, surviving[conjuncts[i].name]);
      }
    }
    if SatisfiesEvery(tags, conjuncts) {
      forall name | name in surviving
        ensures HasTag(tags, name, surviving[name])
      {
        var i :| 0 <= i < |conjuncts| && conjuncts[i].name == name && conjuncts[i].Wanted() == surviving[name];
      }
    }
  }

  /** Tags that carry each surviving value once: the lost conjunct finds no match in them. */
  lemma LossWitness(conjuncts: seq<Conjunct>) returns (tags: seq<Tag>)
    requires !NothingLost(conjuncts)
    ensures SatisfiesSurviving(tags, conjuncts) && !SatisfiesEvery(tags, conjuncts)
  {
    SurvivingIsAConjunct(conjuncts);
    var surviving := Surviving(conjuncts);
    tags := seq(|conjuncts|, i requires 0 <= i < |conjuncts| => Tag(conjuncts[i].name, surviving[conjuncts[i].name]));
    forall name | name in surviving
      ensures HasTag(tags, name, surviving[name])
    {
      var i :| 0 <= i < |conjuncts| && conjuncts[i].name == name;
      assert tags[i].name == name;
    }
    var i :| 0 <= i < |conjuncts| && conjuncts[i].Wanted() != "" &&
             conjuncts[i].Wanted() != surviving[conjuncts[i].name];
    assert !HasTag(tags, conjuncts[i].name, conjuncts[i].Wanted());
  }

  /** Distinct names lose nothing. */
  lemma {:induction false} DistinctNamesLoseNothing(conjuncts: seq<Conjunct>)
    requires forall i, j :: 0 <= i < j < |conjuncts| ==> conjuncts[i].name != conjuncts[j].name
    ensures NothingLost(conjuncts)
    decreases |conjuncts|
  {
    if conjuncts != [] {
      var n := |conjuncts| - 1;
      var front := conjuncts[..n];
      DistinctNamesLoseNothing(front);
      forall i | 0 <= i < |conjuncts| && conjuncts[i].Wanted() != ""
        ensures conjuncts[i].name in Surviving(conjuncts) &&
                conjuncts[i].Wanted() == Surviving(conjuncts)[conjuncts[i].name]
      {
        if i < n { assert front[i] == conjuncts[i]; }
      }
    }
  }

  // ---- scans, their merge, and the answer ----------------------------------------------------

  datatype QueryResult = QueryResult(keys: seq<string>, entries: seq<Entry>)

  ghost predicate Distinct<T(!new)>(s: seq<T>) {
    forall i, j :: 0 <= i < j < |s| ==> s[i] != s[j]
  }

  ghost predicate WellFormed(r: QueryResult) {
    |r.keys| == |r.entries| && Distinct(r.keys)
  }

  /** One locked scan of the store: each matching key once, in any order, with its stored entry. */
  ghost predicate IsScan(records: Records, name: string, wanted: string, r: QueryResult) {
    && WellFormed(r)
    && (forall key :: key in r.keys <==> key in records && HasTag(records[key].tags, name, wanted))
    && (forall i :: 0 <= i < |r.keys| ==> r.keys[i] in records && r.entries[i] == records[r.keys[i]])
  }

  /** The merge of partial results: each key found by all of them once, with the entry one of them saw. */
  ghost predicate IsCommon(results: map<string, QueryResult>, merged: QueryResult) {
    && WellFormed(merged)
    && (forall key :: key in merged.keys <==> FoundByAll(results, key))
    && (forall i :: 0 <= i < |merged.keys| ==> SeenBySome(results, merged.keys[i], merged.entries[i]))
  }

  ghost predicate FoundByAll(results: map<string, QueryResult>, key: string) {
    results != map[] && forall name :: name in results ==> key in results[name].keys
  }

  ghost predicate SeenBySome(results: map<string, QueryResult>, key: string, entry: Entry) {
    exists name, i :: name in results && 0 <= i < |results[name].keys| && i < |results[name].entries| &&
      results[name].keys[i] == key && results[name].entries[i] == entry
  }

  /** The specification of Query with nobody else writing: filter the store by the surviving conjuncts. */
  ghost predicate IsAnswer(records: Records, conjuncts: seq<Conjunct>, r: QueryResult) {
    && WellFormed(r)
    && (forall key :: key in r.keys <==> key in records && SatisfiesSurviving(records[key].tags, conjuncts))
    && (forall i :: 0 <= i < |r.keys| ==> r.keys[i] in records && r.entries[i] == records[r.keys[i]])
  }

  ghost predicate ScansOf(records: Records, conjuncts: seq<Conjunct>, results: map<string, QueryResult>) {
    && results.Keys == Surviving(conjuncts).Keys
    && forall name :: name in results ==> IsScan(records, name, Surviving(conjuncts)[name], results[name])
  }

  lemma ScansOfNext(records: Records, conjuncts: seq<Conjunct>, results: map<string, QueryResult>, c: Conjunct,
                    r: QueryResult)
    requires ScansOf(records, conjuncts, results)
    requires IsScan(records, c.name, c.Wanted(), r)
    ensures ScansOf(records, conjuncts + [c], results[c.name := r])
  {
    assert (conjuncts + [c])[..|conjuncts|] == conjuncts;
  }

  /** A query for one name finds the keys with a tag of that name, and a query for a name and a value those with just that
      tag; an empty value is like none. */
  lemma AnswerIsTagged(records: Records, c: Conjunct, r: QueryResult, key: string)
    requires IsAnswer(records, [c], r)
    ensures key in r.keys <==>
            key in records && exists tag :: tag in records[key].tags && IsTagged(tag, c)
  {
    if key in records {
      SatisfiesOne(records[key].tags, c);
      HasTagIsTagged(records[key].tags, c);
    }
  }

  lemma SatisfiesOne(tags: seq<Tag>, c: Conjunct)
    ensures SatisfiesSurviving(tags, [c]) <==> HasTag(tags, c.name, c.Wanted())
  {
    assert [c][..0] == [];
    assert Surviving([c]) == map[c.name := c.Wanted()];
    assert c.name in Surviving([c]);
  }

  lemma HasTagIsTagged(tags: seq<Tag>, c: Conjunct)
    ensures HasTag(tags, c.name, c.Wanted()) <==> exists tag :: tag in tags && IsTagged(tag, c)
  {
    if HasTag(tags, c.name, c.Wanted()) {
      var i :| 0 <= i < |tags| && tags[i].name == c.name && (c.Wanted() == "" || tags[i].value == c.Wanted());
      assert tags[i] in tags && IsTagged(tags[i], c);
    }
    if tag :| tag in tags && IsTagged(tag, c) {
      var i :| 0 <= i < |tags| && tags[i] == tag;
      assert tags[i].name == c.name;
    }
  }

  predicate IsTagged(tag: Tag, c: Conjunct) {
    if c.NameValue? && c.val != "" then tag == Tag(c.name, c.val) else tag.name == c.name
  }

  /** What was put under a key is found there by each of its tags. */
  lemma PutIsFound(records: Records, key: string, value: Option<Bytes>, tags: seq<Tag>, tag: Tag, r: QueryResult)
    requires PutError(key, value, tags).None? && tag in tags
    requires IsAnswer(AfterPut(records, key, value, tags), [NameValue(tag.name, tag.value)], r)
    ensures exists i :: 0 <= i < |r.keys| && r.keys[i] == key && r.entries[i] == Entry(value.value, tags)
  {
    AnswerIsTagged(AfterPut(records, key, value, tags), NameValue(tag.name, tag.value), r, key);
    assert IsTagged(tag, NameValue(tag.name, tag.value));
  }

  /** Merging the scans of an undisturbed store filters it. */
  lemma MergeIsFilter(records: Records, conjuncts: seq<Conjunct>, results: map<string, QueryResult>, merged: QueryResult)
    requires conjuncts != []
    requires ScansOf(records, conjuncts, results)
    requires IsCommon(results, merged)
    ensures IsAnswer(records, conjuncts, merged)
  {
    SurvivingIsAConjunct(conjuncts);
    var surviving := Surviving(conjuncts);
    assert conjuncts[0].name in results;
    forall key
      ensures key in merged.keys <==> key in records && SatisfiesSurviving(records[key].tags, conjuncts)
    {
      if key in merged.keys {
        assert key in results[conjuncts[0].name].keys;
        forall name | name in surviving
          ensures HasTag(records[key].tags, name, surviving[name])
        {
          assert key in results[name].keys;
        }
      }
    }
    forall i | 0 <= i < |merged.keys|
      ensures merged.keys[i] in records && merged.entries[i] == records[merged.keys[i]]
    {
      assert SeenBySome(results, merged.keys[i], merged.entries[i]);
    }
  }
}
