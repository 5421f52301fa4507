/** The search for a claim that is nested somewhere below a credential subject's fields. */
module ClaimSearch {
  import opened Outcomes
  import opened GoText

  /** Decoded JSON; Null stands for Go's nil, which the search also returns when it finds nothing. */
  datatype Json = Null | Bool(b: bool) | Num(n: int) | Str(s: string) | Arr(items: seq<Json>) | Obj(fields: Fields)
  type Fields = map<string, Json>

  ghost predicate HasNested(claims: Fields) {
    exists k :: k in claims && claims[k].Obj?
  }

  /** The possible results of the search: it looks in the first nested object that the map hands out, and in no other. */
  ghost predicate Finds(claims: Fields, name: string, r: Json)
    decreases Obj(claims)
  {
    if name in claims then r == claims[name]
    else if !HasNested(claims) then r == Null
    else exists k :: k in claims && claims[k].Obj? && Finds(claims[k].fields, name, r)
  }

  /** Terminates on the nesting depth. */
  method FindMatchingClaimValueInMap(claims: Fields, name: string) returns (r: Json)
    ensures Finds(claims, name, r)
    decreases Obj(claims)
  {
    if name in claims {
      return claims[name];
    }
    var rest := claims.Keys;
    while rest != {}
      invariant rest <= claims.Keys
      invariant forall k :: k in claims.Keys - rest ==> !claims[k].Obj?
      decreases rest
    {
      var k :| k in rest;
      rest := rest - {k};
      if claims[k].Obj? {
        r := FindMatchingClaimValueInMap(claims[k].fields, name);
        return r;
      }
    }
    return Null;
  }

  /** The value at a path of keys, if every key but the last leads to an object. */
  function AtPath(claims: Fields, path: seq<string>): Option<Json>
    requires path != []
    decreases |path|
  {
    if path[0] !in claims then None
    else if |path| == 1 then Some(claims[path[0]])
    else if !claims[path[0]].Obj? then None
    else AtPath(claims[path[0]].fields, path[1..])
  }

  /** An occurrence of the key: a path that ends in it. */
  ghost predicate Occurrence(claims: Fields, name: string, path: seq<string>) {
    path != [] && path[|path| - 1] == name && AtPath(claims, path).Some?
  }

  /** A result other than nil is the value at some occurrence of the requested key. */
  lemma {:induction false} FoundUnderKey(claims: Fields, name: string, r: Json)
    requires Finds(claims, name, r) && r != Null
    ensures exists path :: Occurrence(claims, name, path) && AtPath(claims, path) == Some(r)
    decreases Obj(claims)
  {
    if name in claims {
      assert Occurrence(claims, name, [name]);
    } else {
      var k :| k in claims && claims[k].Obj? && Finds(claims[k].fields, name, r);
      FoundUnderKey(claims[k].fields, name, r);
      var path :| Occurrence(claims[k].fields, name, path) && AtPath(claims[k].fields, path) == Some(r);
      assert ([k] + path)[1..] == path;
      assert Occurrence(claims, name, [k] + path);
    }
  }

  /** Every level has at most one nested object. */
  ghost predicate SingleBranch(claims: Fields)
    decreases Obj(claims)
  {
    && (forall k, k' :: k in claims && k' in claims && claims[k].Obj? && claims[k'].Obj? ==> k == k')
    && (forall k :: k in claims && claims[k].Obj? ==> SingleBranch(claims[k].fields))
  }

  ghost predicate Shallowest(claims: Fields, name: string, path: seq<string>) {
    Occurrence(claims, name, path) && forall other :: Occurrence(claims, name, other) ==> |path| <= |other|
  }

  /** Below a level without the key, all its occurrences go through the one nested object. */
  lemma OccurrencesGoThrough(claims: Fields, name: string, k: string, path: seq<string>)
    requires SingleBranch(claims) && name !in claims && k in claims && claims[k].Obj?
    ensures Occurrence(claims, name, path) <==>
            |path| > 1 && path[0] == k && Occurrence(claims[k].fields, name, path[1..])
  {
    if |path| > 1 {
      assert path[1..][|path| - 2] == path[|path| - 1];
    }
  }

  /** With one nested object at every level, the search has one result: the value at the shallowest occurrence of the
      key, or nil when the key occurs nowhere. */
  lemma {:induction false} SearchFindsShallowest(claims: Fields, name: string, r: Json)
    requires SingleBranch(claims) && Finds(claims, name, r)
    ensures (exists path :: Occurrence(claims, name, path)) ==> exists path :: Shallowest(claims, name, path)
    ensures forall path :: Shallowest(claims, name, path) ==> AtPath(claims, path) == Some(r)
    ensures (forall path :: !Occurrence(claims, name, path)) ==> r == Null
    decreases Obj(claims)
  {
    if name in claims {
      assert Occurrence(claims, name, [name]) && Shallowest(claims, name, [name]);
      forall path | Shallowest(claims, name, path)
        ensures path == [name]
      {
      }
    } else if HasNested(claims) {
      var k :| k in claims && claims[k].Obj? && Finds(claims[k].fields, name, r);
      SearchFindsShallowest(claims[k].fields, name, r);
      forall path
        ensures Occurrence(claims, name, path) ==> Occurrence(claims[k].fields, name, path[1..])
        ensures Shallowest(claims, name, path) ==> Shallowest(claims[k].fields, name, path[1..])
        ensures Shallowest(claims, name, path) ==> AtPath(claims, path) == AtPath(claims[k].fields, path[1..])
      {
        OccurrencesGoThrough(claims, name, k, path);
        ShallowestBelow(claims, name, k, path);
      }
      forall path
        ensures Occurrence(claims[k].fields, name, path) ==> Occurrence(claims, name, [k] + path)
        ensures Shallowest(claims[k].fields, name, path) ==> Shallowest(claims, name, [k] + path)
      {
        OccurrencesGoThrough(claims, name, k, [k] + path);
        ShallowestAbove(claims, name, k, path);
      }
    } else {
      forall path
        ensures !Occurrence(claims, name, path)
      {
      }
    }
  }

  lemma ShallowestBelow(claims: Fields, name: string, k: string, path: seq<string>)
    requires SingleBranch(claims) && name !in claims && k in claims && claims[k].Obj?
    ensures Shallowest(claims, name, path) ==> |path| > 1 && Shallowest(claims[k].fields, name, path[1..])
  {
    if Shallowest(claims, name, path) {
      OccurrencesGoThrough(claims, name, k, path);
      forall other | Occurrence(claims[k].fields, name, other)
        ensures |path[1..]| <= |other|
      {
        assert ([k] + other)[1..] == other;
        OccurrencesGoThrough(claims, name, k, [k] + other);
      }
    }
  }

  lemma ShallowestAbove(claims: Fields, name: string, k: string, path: seq<string>)
    requires SingleBranch(claims) && name !in claims && k in claims && claims[k].Obj?
    ensures Shallowest(claims[k].fields, name, path) ==> Shallowest(claims, name, [k] + path)
  {
    if Shallowest(claims[k].fields, name, path) {
      assert ([k] + path)[1..] == path;
      OccurrencesGoThrough(claims, name, k, [k] + path);
      forall other | Occurrence(claims, name, other)
        ensures |[k] + path| <= |other|
      {
        OccurrencesGoThrough(claims, name, k, other);
      }
    }
  }

  /** So a value is found exactly when the key's shallowest occurrence holds one. */
  lemma FoundExactlyWhenOccurring(claims: Fields, name: string, r: Json)
    requires SingleBranch(claims) && Finds(claims, name, r)
    ensures r != Null <==> exists path :: Shallowest(claims, name, path) && AtPath(claims, path) != Some(Null)
  {
    SearchFindsShallowest(claims, name, r);
    if r != Null {
      FoundUnderKey(claims, name, r);
      var path :| Shallowest(claims, name, path);
      assert AtPath(claims, path) == Some(r);
    }
  }

  /** With two nested objects on a level the order of the map decides: the search may miss a key that occurs. */
  lemma SiblingsCanHideAClaim(name: string, value: Json)
    requires name != "a" && name != "b"
    ensures var claims := map["a" := Obj(map[name := value]), "b" := Obj(map[])];
            Finds(claims, name, value) && Finds(claims, name, Null)
  {
    var claims: Fields := map["a" := Obj(map[name := value]), "b" := Obj(map[])];
    assert claims["a"].Obj? && Finds(claims["a"].fields, name, value);
    assert claims["b"].Obj? && Finds(claims["b"].fields, name, Null);
  }

  /** The document gives the search no way to come back with nothing: on every level it may enter, the key is there with a
      value, or there is a nested object left to enter. */
  ghost predicate NeverMisses(claims: Fields, name: string)
    decreases Obj(claims)
  {
    if name in claims then claims[name] != Null
    else HasNested(claims) && forall k :: k in claims && claims[k].Obj? ==> NeverMisses(claims[k].fields, name)
  }

  /** Coming back with nothing is a possible result, for some map order, exactly when the document may miss. */
  lemma {:induction false} FoundInAnyOrderExactlyWhen(claims: Fields, name: string)
    ensures NeverMisses(claims, name) <==> !Finds(claims, name, Null)
    decreases Obj(claims)
  {
    if name !in claims {
      forall k | k in claims && claims[k].Obj?
        ensures NeverMisses(claims[k].fields, name) <==> !Finds(claims[k].fields, name, Null)
      {
        FoundInAnyOrderExactlyWhen(claims[k].fields, name);
      }
    }
  }

  /** Every object the search may enter gives it this value in the end. */
  ghost predicate AlwaysFinds(claims: Fields, name: string, v: Json)
    decreases Obj(claims)
  {
    if name in claims then claims[name] == v
    else if !HasNested(claims) then v == Null
    else forall k :: k in claims && claims[k].Obj? ==> AlwaysFinds(claims[k].fields, name, v)
  }

  lemma {:induction false} SearchHasResult(claims: Fields, name: string) returns (r: Json)
    ensures Finds(claims, name, r)
    decreases Obj(claims)
  {
    if name in claims {
      r := claims[name];
    } else if k :| k in claims && claims[k].Obj? {
      r := SearchHasResult(claims[k].fields, name);
    } else {
      r := Null;
    }
  }

  /** This is the one result of the search, whatever the map order. */
  ghost predicate OnlyFinds(claims: Fields, name: string, v: Json) {
    Finds(claims, name, v) && forall r :: Finds(claims, name, r) ==> r == v
  }

  /** The search has this one result exactly when the document always leads to it. */
  lemma {:induction false} OneResultExactlyWhen(claims: Fields, name: string, v: Json)
    ensures AlwaysFinds(claims, name, v) <==> OnlyFinds(claims, name, v)
    decreases Obj(claims)
  {
    if name !in claims && HasNested(claims) {
      forall k | k in claims && claims[k].Obj?
        ensures AlwaysFinds(claims[k].fields, name, v) <==> OnlyFinds(claims[k].fields, name, v)
      {
        OneResultExactlyWhen(claims[k].fields, name, v);
      }
      OnlyBelow(claims, name, v);
    } else {
      assert Finds(claims, name, if name in claims then claims[name] else Null);
    }
  }

  /** Where the search has to go on, it has one result exactly when it has that result in every nested object. */
  lemma OnlyBelow(claims: Fields, name: string, v: Json)
    requires name !in claims && HasNested(claims)
    ensures OnlyFinds(claims, name, v) <==>
            forall k :: k in claims && claims[k].Obj? ==> OnlyFinds(claims[k].fields, name, v)
  {
    if OnlyFinds(claims, name, v) {
      forall k | k in claims && claims[k].Obj?
        ensures OnlyFinds(claims[k].fields, name, v)
      {
        assert forall r :: Finds(claims[k].fields, name, r) ==> Finds(claims, name, r);
        var found := SearchHasResult(claims[k].fields, name);
      }
    } else if forall k :: k in claims && claims[k].Obj? ==> OnlyFinds(claims[k].fields, name, v) {
      var k :| k in claims && claims[k].Obj?;
      assert OnlyFinds(claims[k].fields, name, v) && Finds(claims, name, v);
      forall r | Finds(claims, name, r)
        ensures r == v
      {
        var k' :| k' in claims && claims[k'].Obj? && Finds(claims[k'].fields, name, r);
        assert OnlyFinds(claims[k'].fields, name, v);
      }
    }
  }

  // ---- which value a field name stands for ---------------------------------------------------

  datatype Subject = Subject(id: string, customFields: Fields)

  const SUBJECT_PATH := "$.credentialSubject."

  /** The possible values of a field: the subject's ID, a JSONPath into the subject or into the whole credential, a field
      of that name, or the nested search. */
  ghost predicate FieldValue(jsonPath: (Fields, string) -> Json, raw: Fields, subject: Subject, fieldName: string,
                             r: Json) {
    if EqualFold(fieldName, "ID") then r == if subject.id == "" then Null else Str(subject.id)
    else if HasPrefix(fieldName, SUBJECT_PATH) then
      r == jsonPath(subject.customFields, ReplaceAll(fieldName, SUBJECT_PATH, "$."))
    else if HasPrefix(fieldName, "$.") then r == jsonPath(raw, fieldName)
    else Finds(subject.customFields, fieldName, r)
  }

  /** What a value found for a plain field name means: it stands under that name at some depth, at the shallowest one if
      no level has two nested objects; the subject's own field comes first; and there is always one unless the document
      may miss. Values for other names come from the ID or from a path alone. */
  lemma FieldValueMeans(jsonPath: (Fields, string) -> Json, raw: Fields, subject: Subject, fieldName: string, r: Json)
    requires FieldValue(jsonPath, raw, subject, fieldName, r)
    requires !EqualFold(fieldName, "ID") && !HasPrefix(fieldName, "$.")
    ensures fieldName in subject.customFields ==> r == subject.customFields[fieldName]
    ensures r != Null ==> exists path ::
              Occurrence(subject.customFields, fieldName, path) && AtPath(subject.customFields, path) == Some(r)
    ensures NeverMisses(subject.customFields, fieldName) ==> r != Null
    ensures SingleBranch(subject.customFields) ==> forall path ::
              Shallowest(subject.customFields, fieldName, path) ==> AtPath(subject.customFields, path) == Some(r)
  {
    assert !HasPrefix(fieldName, SUBJECT_PATH) by {
      assert "$." <= SUBJECT_PATH;
    }
    FoundInAnyOrderExactlyWhen(subject.customFields, fieldName);
    if r != Null {
      FoundUnderKey(subject.customFields, fieldName, r);
    }
    if SingleBranch(subject.customFields) {
      SearchFindsShallowest(subject.customFields, fieldName, r);
    }
  }

  /** A field that asks for the ID stands for the subject's ID, if it has one. */
  lemma IDValueMeans(jsonPath: (Fields, string) -> Json, raw: Fields, subject: Subject, fieldName: string, r: Json)
    requires FieldValue(jsonPath, raw, subject, fieldName, r) && EqualFold(fieldName, "ID")
    ensures r == Null <==> subject.id == ""
    ensures r != Null ==> r == Str(subject.id)
  {
  }

  /** A path that does not lead into the subject is looked up in the whole credential. */
  lemma PathValueMeans(jsonPath: (Fields, string) -> Json, raw: Fields, subject: Subject, path: string, r: Json)
    requires FieldValue(jsonPath, raw, subject, path, r) && "$." <= path && !("$.credentialSubject." <= path)
    ensures r == jsonPath(raw, path)
  {
    NotTheID(path);
  }

  /** A path that does is looked up in the subject's fields, from their root. */
  lemma SubjectPathValueMeans(jsonPath: (Fields, string) -> Json, raw: Fields, subject: Subject, path: string,
                              prefix: string, root: string, rest: string, r: Json)
    requires prefix == "$.credentialSubject." && root == "$." && path == prefix + rest
    requires FieldValue(jsonPath, raw, subject, path, r)
    ensures r == jsonPath(subject.customFields, root + ReplaceAll(rest, prefix, root))
  {
    NotTheID(path);
    ReplaceAtStart(prefix, rest, root);
  }

  lemma NotTheID(path: string)
    requires path != "" && path[0] == '$'
    ensures !EqualFold(path, "ID")
  {
    assert Lower(path)[0] == '$' && Lower("ID")[0] == 'i';
  }

  lemma ReplaceAtStart(was: string, rest: string, becomes: string)
    requires was != [] && was != becomes
    ensures ReplaceAll(was + rest, was, becomes) == becomes + ReplaceAll(rest, was, becomes)
  {
    OccursFirst(was, rest);
  }

  lemma OccursFirst(was: string, rest: string)
    requires was != []
    ensures var s := was + rest;
            Index(s, was) == 0 && s[..0] == [] && s[0 + |was|..] == rest && forall x: string :: [] + x == x
  {
    var s := was + rest;
    assert s[0..|was|] == was;
    assert OccursAt(s, was, 0);
  }

  /** No map order changes what the field stands for. */
  ghost predicate Determined(jsonPath: (Fields, string) -> Json, raw: Fields, subject: Subject, fieldName: string) {
    forall r, r' ::
      FieldValue(jsonPath, raw, subject, fieldName, r) && FieldValue(jsonPath, raw, subject, fieldName, r') ==> r == r'
  }

  /** A field is determined exactly when it is not searched for, or the subject always leads the search to one value. */
  lemma DeterminedExactlyWhen(jsonPath: (Fields, string) -> Json, raw: Fields, subject: Subject, fieldName: string)
    ensures Determined(jsonPath, raw, subject, fieldName) <==>
            || EqualFold(fieldName, "ID") || HasPrefix(fieldName, "$.")
            || exists v :: AlwaysFinds(subject.customFields, fieldName, v)
  {
    var claims := subject.customFields;
    assert HasPrefix(fieldName, SUBJECT_PATH) ==> HasPrefix(fieldName, "$.");
    if !EqualFold(fieldName, "ID") && !HasPrefix(fieldName, "$.") {
      assert forall r :: FieldValue(jsonPath, raw, subject, fieldName, r) <==> Finds(claims, fieldName, r);
      if Determined(jsonPath, raw, subject, fieldName) {
        var v := SearchHasResult(claims, fieldName);
        assert FieldValue(jsonPath, raw, subject, fieldName, v);
        OneResultExactlyWhen(claims, fieldName, v);
      }
      if v :| AlwaysFinds(claims, fieldName, v) {
        OneResultExactlyWhen(claims, fieldName, v);
      }
    }
  }

  method GetMatchingClaimValue(jsonPath: (Fields, string) -> Json, raw: Fields, subject: Subject, fieldName: string)
    returns (r: Json)
    ensures FieldValue(jsonPath, raw, subject, fieldName, r)
  {
    if EqualFold(fieldName, "ID") {
      if subject.id == "" {
        return Null;
      }
      return Str(subject.id);
    }
    if HasPrefix(fieldName, SUBJECT_PATH) {
      return jsonPath(subject.customFields, ReplaceAll(fieldName, SUBJECT_PATH, "$."));
    } else if HasPrefix(fieldName, "$.") {
      return jsonPath(raw, fieldName);
    }
    if fieldName in subject.customFields {
      return subject.customFields[fieldName];
    }
    r := FindMatchingClaimValueInMap(subject.customFields, fieldName);
  }
}
