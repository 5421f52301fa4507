/** The projection of a credential subject to its claim keys, filled in place, map by map. */
module ClaimKeys {
  import opened Outcomes
  import opened ClaimSearch

  /** Keys only, all the way down. */
  datatype KeyTree = KeyTree(children: map<string, KeyTree>)

  function KeysOf(doc: Fields): KeyTree
    decreases Obj(doc)
  {
    KeyTree(map k | k in doc && k != "_sd" :: if doc[k].Obj? then KeysOf(doc[k].fields) else KeyTree(map[]))
  }

  /** The keys below one value; only objects have any. */
  function KeysBelow(value: Json): KeyTree {
    if value.Obj? then KeysOf(value.fields) else KeyTree(map[])
  }

  // ---- the program's form --------------------------------------------------------------------

  /** A Go map from keys to further such maps; several references to one map see each other's writes. */
  class KeyMap {
    var entries: map<string, KeyMap>
    ghost var Repr: set<KeyMap>

    constructor ()
      ensures entries == map[] && Repr == {this}
    {
      entries, Repr := map[], {this};
    }

    /** The map and everything below it spell out the tree, and no map is below itself. */
    ghost predicate Holds(t: KeyTree)
      reads this, Repr
      decreases t
    {
      && this in Repr
      && entries.Keys == t.children.Keys
      && forall k :: k in entries ==>
           && entries[k] in Repr && entries[k].Repr <= Repr && this !in entries[k].Repr
           && entries[k].Holds(t.children[k])
    }
  }

  /** The tree of the keys visited so far. */
  ghost function Visited(doc: Fields, done: set<string>): KeyTree {
    KeyTree(map k | k in doc && k in done && k != "_sd" :: KeysBelow(doc[k]))
  }

  lemma VisitedNext(doc: Fields, done: set<string>, k: string)
    requires k in doc
    ensures Visited(doc, done + {k}) ==
            if k == "_sd" then Visited(doc, done) else KeyTree(Visited(doc, done).children[k := KeysBelow(doc[k])])
  {
    assert k != "_sd" ==>
        Visited(doc, done + {k}).children == Visited(doc, done).children[k := KeysBelow(doc[k])];
  }

  lemma VisitedAll(doc: Fields)
    ensures Visited(doc, doc.Keys) == KeysOf(doc)
  {
    assert Visited(doc, doc.Keys).children == KeysOf(doc).children;
  }

  method PopulateClaimKeys(claimKeys: KeyMap, doc: Fields)
    requires claimKeys.entries == map[] && claimKeys.Repr == {claimKeys}
    modifies claimKeys
    ensures claimKeys.Holds(KeysOf(doc)) && fresh(claimKeys.Repr - {claimKeys})
    decreases Obj(doc), 0
  {
    var rest := doc.Keys;
    while rest != {}
      invariant rest <= doc.Keys
      invariant claimKeys.Holds(Visited(doc, doc.Keys - rest))
      invariant fresh(claimKeys.Repr - {claimKeys})
      decreases rest
    {
      var k :| k in rest;
      ghost var done := doc.Keys - rest;
      rest := rest - {k};
      assert doc.Keys - rest == done + {k};
      VisitedNext(doc, done, k);
      if k == "_sd" {
        continue;
      }
      AddKey(claimKeys, k, doc[k], Visited(doc, done));
    }
    assert doc.Keys - rest == doc.Keys;
    VisitedAll(doc);
  }

  /** The child map is linked before it is filled. */
  method AddKey(claimKeys: KeyMap, k: string, v: Json, ghost t: KeyTree)
    requires claimKeys.Holds(t)
    modifies claimKeys
    ensures claimKeys.Holds(KeyTree(t.children[k := KeysBelow(v)]))
    ensures fresh(claimKeys.Repr - old(claimKeys.Repr))
    decreases v, 2
  {
    var keys, others := Link(claimKeys, k, t);
    FillChild(claimKeys, others, t, claimKeys.Repr, keys, v);
    Adopt(claimKeys, others, t, k, KeysBelow(v));
  }

  method Link(claimKeys: KeyMap, k: string, ghost t: KeyTree) returns (keys: KeyMap, ghost others: map<string, KeyMap>)
    requires claimKeys.Holds(t)
    modifies claimKeys`entries
    ensures fresh(keys) && keys.entries == map[] && keys.Repr == {keys}
    ensures claimKeys.entries == others[k := keys] && claimKeys.entries.Keys == t.children.Keys + {k}
    ensures Siblings(claimKeys, others, t, claimKeys.Repr) && claimKeys in claimKeys.Repr
  {
    others := OtherChildren(claimKeys, k, t);
    keys := new KeyMap();
    claimKeys.entries := claimKeys.entries[k := keys];
  }

  lemma OtherChildren(claimKeys: KeyMap, k: string, t: KeyTree) returns (others: map<string, KeyMap>)
    requires claimKeys.Holds(t)
    ensures others == map o | o in claimKeys.entries && o != k :: claimKeys.entries[o]
    ensures Siblings(claimKeys, others, t, claimKeys.Repr)
    ensures claimKeys in claimKeys.Repr && claimKeys.entries.Keys == t.children.Keys
  {
    others := map o | o in claimKeys.entries && o != k :: claimKeys.entries[o];
  }

  /** Filling a new child leaves its siblings alone. */
  method FillChild(claimKeys: KeyMap, ghost others: map<string, KeyMap>, ghost t: KeyTree, ghost repr: set<KeyMap>,
                   keys: KeyMap, v: Json)
    requires Siblings(claimKeys, others, t, repr) && keys !in repr && keys != claimKeys
    requires keys.entries == map[] && keys.Repr == {keys}
    modifies keys
    ensures Siblings(claimKeys, others, t, repr)
    ensures keys.Holds(KeysBelow(v)) && fresh(keys.Repr - {keys})
    decreases v, 1
  {
    if v.Obj? {
      PopulateClaimKeys(keys, v.fields);
    }
  }

  /** Takes a filled child into the footprint of its parent. */
  ghost method Adopt(claimKeys: KeyMap, others: map<string, KeyMap>, t: KeyTree, k: string, child: KeyTree)
    requires Siblings(claimKeys, others, t, claimKeys.Repr) && claimKeys in claimKeys.Repr
    requires k in claimKeys.entries && claimKeys.entries == others[k := claimKeys.entries[k]]
    requires claimKeys.entries.Keys == t.children.Keys + {k}
    requires claimKeys !in claimKeys.entries[k].Repr && claimKeys.entries[k].Holds(child)
    modifies claimKeys`Repr
    ensures claimKeys.Holds(KeyTree(t.children[k := child]))
    ensures claimKeys.Repr == old(claimKeys.Repr) + claimKeys.entries[k].Repr
  {
    var t' := KeyTree(t.children[k := child]);
    claimKeys.Repr := claimKeys.Repr + claimKeys.entries[k].Repr;
    forall o | o in claimKeys.entries
      ensures claimKeys.entries[o] in claimKeys.Repr && claimKeys.entries[o].Repr <= claimKeys.Repr
      ensures claimKeys !in claimKeys.entries[o].Repr && claimKeys.entries[o].Holds(t'.children[o])
    {
      if o != k {
        assert claimKeys.entries[o] == others[o];
      }
    }
  }

  /** The other children of a map and the trees they hold. */
  ghost predicate Siblings(claimKeys: KeyMap, others: map<string, KeyMap>, t: KeyTree, repr: set<KeyMap>)
    reads others.Values, set o, m | o in others && m in others[o].Repr :: m
  {
    forall o :: o in others ==>
      && o in t.children && others[o] in repr && others[o].Repr <= repr && claimKeys !in others[o].Repr
      && others[o].Holds(t.children[o])
  }

  method PresentedClaims(customFields: Fields) returns (keys: KeyMap)
    ensures fresh(keys.Repr) && keys.Holds(KeysOf(customFields))
  {
    keys := new KeyMap();
    PopulateClaimKeys(keys, customFields);
  }

  // ---- what the projection keeps -------------------------------------------------------------

  predicate HasPath(t: KeyTree, path: seq<string>)
    requires path != []
    decreases |path|
  {
    path[0] in t.children && (|path| == 1 || HasPath(t.children[path[0]], path[1..]))
  }

  /** The key paths of the projection are exactly the object paths of the document that avoid "_sd". */
  lemma {:induction false} ProjectionPaths(doc: Fields, path: seq<string>)
    requires path != []
    ensures HasPath(KeysOf(doc), path) <==> AtPath(doc, path).Some? && "_sd" !in path
    decreases |path|
  {
    var k := path[0];
    assert path == [k] + path[1..];
    if k in doc && k != "_sd" && |path| > 1 {
      if doc[k].Obj? {
        ProjectionPaths(doc[k].fields, path[1..]);
      } else {
        assert !HasPath(KeyTree(map[]), path[1..]);
      }
    }
  }

  /** Trees with the same paths are the same. */
  lemma {:induction false} TreeByPaths(a: KeyTree, b: KeyTree)
    requires forall path: seq<string> :: path != [] ==> (HasPath(a, path) <==> HasPath(b, path))
    ensures a == b
  {
    forall k
      ensures k in a.children <==> k in b.children
    {
      assert HasPath(a, [k]) <==> HasPath(b, [k]);
    }
    forall k | k in a.children
      ensures a.children[k] == b.children[k]
    {
      forall path: seq<string> | path != []
        ensures HasPath(a.children[k], path) <==> HasPath(b.children[k], path)
      {
        assert ([k] + path)[1..] == path;
        assert HasPath(a, [k] + path) <==> HasPath(b, [k] + path);
      }
      TreeByPaths(a.children[k], b.children[k]);
    }
    assert a.children == b.children;
  }

  /** Two documents have the same projection exactly when they have the same object paths outside "_sd", whatever the
      values there. */
  lemma ProjectionForgetsValues(a: Fields, b: Fields)
    ensures KeysOf(a) == KeysOf(b) <==>
            forall path: seq<string> :: path != [] && "_sd" !in path ==>
              (AtPath(a, path).Some? <==> AtPath(b, path).Some?)
  {
    forall path: seq<string> | path != []
      ensures HasPath(KeysOf(a), path) <==> AtPath(a, path).Some? && "_sd" !in path
      ensures HasPath(KeysOf(b), path) <==> AtPath(b, path).Some? && "_sd" !in path
    {
      ProjectionPaths(a, path);
      ProjectionPaths(b, path);
    }
    if forall path: seq<string> :: path != [] && "_sd" !in path ==> (AtPath(a, path).Some? <==> AtPath(b, path).Some?) {
      TreeByPaths(KeysOf(a), KeysOf(b));
    }
  }

  /** The projection read as a document again. */
  function AsFields(t: KeyTree): Fields {
    map k | k in t.children :: Obj(AsFields(t.children[k]))
  }

  predicate NoSD(t: KeyTree) {
    "_sd" !in t.children && forall k :: k in t.children ==> NoSD(t.children[k])
  }

  lemma {:induction false} KeysOfHasNoSD(doc: Fields)
    ensures NoSD(KeysOf(doc))
    decreases Obj(doc)
  {
    forall k | k in KeysOf(doc).children
      ensures NoSD(KeysOf(doc).children[k])
    {
      if doc[k].Obj? {
        KeysOfHasNoSD(doc[k].fields);
      }
    }
  }

  lemma {:induction false} KeysOfAsFields(t: KeyTree)
    requires NoSD(t)
    ensures KeysOf(AsFields(t)) == t
  {
    forall k | k in t.children
      ensures KeysOf(AsFields(t.children[k])) == t.children[k]
    {
      KeysOfAsFields(t.children[k]);
    }
    assert KeysOf(AsFields(t)).children == t.children;
  }

  /** Projecting twice is projecting once. */
  lemma ProjectionIdempotent(doc: Fields)
    ensures KeysOf(AsFields(KeysOf(doc))) == KeysOf(doc)
  {
    KeysOfHasNoSD(doc);
    KeysOfAsFields(KeysOf(doc));
  }

  // ---- the projection of plain JSON ----------------------------------------------------------

  datatype Skeleton = Empty | Node(children: map<string, Skeleton>) | List(items: seq<Skeleton>)

  /** Plain JSON keeps its lists, and its "_sd" keys too; every other value becomes an empty object. */
  function CopyJSONKeysOnly(j: Json): Skeleton {
    match j
    case Obj(fields) => Node(map k | k in fields :: CopyJSONKeysOnly(fields[k]))
    case Arr(items) => List(seq(|items|, i requires 0 <= i < |items| => CopyJSONKeysOnly(items[i])))
    case _ => Empty
  }

  function SkeletonOf(t: KeyTree): Skeleton {
    Node(map k | k in t.children :: SkeletonOf(t.children[k]))
  }

  /** A projection handed back as plain JSON comes out as it was. */
  lemma {:induction false} CopyingAProjection(t: KeyTree)
    ensures CopyJSONKeysOnly(Obj(AsFields(t))) == SkeletonOf(t)
  {
    forall k | k in t.children
      ensures CopyJSONKeysOnly(AsFields(t)[k]) == SkeletonOf(t.children[k])
    {
      CopyingAProjection(t.children[k]);
    }
    assert CopyJSONKeysOnly(Obj(AsFields(t))).children == SkeletonOf(t).children;
  }

  // Where a copy and its document correspond.

  datatype PathStep = Key(k: string) | Item(i: nat)

  function JsonAt(j: Json, path: seq<PathStep>): Option<Json>
    decreases |path|
  {
    if path == [] then Some(j)
    else
      match (path[0], j)
      case (Key(k), Obj(fields)) => if k in fields then JsonAt(fields[k], path[1..]) else None
      case (Item(i), Arr(items)) => if i < |items| then JsonAt(items[i], path[1..]) else None
      case _ => None
  }

  function SkeletonAt(t: Skeleton, path: seq<PathStep>): Option<Skeleton>
    decreases |path|
  {
    if path == [] then Some(t)
    else
      match (path[0], t)
      case (Key(k), Node(children)) => if k in children then SkeletonAt(children[k], path[1..]) else None
      case (Item(i), List(items)) => if i < |items| then SkeletonAt(items[i], path[1..]) else None
      case _ => None
  }

  /** Objects have the same keys, lists the same length, and everything else is an empty object. */
  predicate SameShape(j: Json, t: Skeleton) {
    match j
    case Obj(fields) => t.Node? && t.children.Keys == fields.Keys
    case Arr(items) => t.List? && |t.items| == |items|
    case _ => t.Empty?
  }

  /** The copy has a place exactly where the document has one, and the same shape there. */
  lemma {:induction false} CopyKeepsShape(j: Json, path: seq<PathStep>)
    ensures JsonAt(j, path).Some? <==> SkeletonAt(CopyJSONKeysOnly(j), path).Some?
    ensures JsonAt(j, path).Some? ==> SameShape(JsonAt(j, path).value, SkeletonAt(CopyJSONKeysOnly(j), path).value)
    decreases |path|
  {
    if path != [] {
      match (path[0], j)
      case (Key(k), Obj(fields)) =>
        if k in fields {
          CopyKeepsShape(fields[k], path[1..]);
        }
      case (Item(i), Arr(items)) =>
        if i < |items| {
          CopyKeepsShape(items[i], path[1..]);
        }
      case _ =>
    }
  }
}
