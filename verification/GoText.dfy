/** The functions of Go's "strings" package that the wallet relies on. A Go string is a sequence of bytes; the element
    type is a parameter because nothing here looks inside an element. */
module GoText {

  newtype byte = b: int | 0 <= b < 256

  type Bytes = seq<byte>

  predicate OccursAt<T(==)>(s: seq<T>, sub: seq<T>, i: nat) {
    i + |sub| <= |s| && s[i..i + |sub|] == sub
  }

  ghost predicate Contains<T>(s: seq<T>, sub: seq<T>) {
    exists i: nat :: OccursAt(s, sub, i)
  }

  /** strings.Index: the leftmost occurrence, or -1. */
  function Index<T(==)>(s: seq<T>, sub: seq<T>): (i: int)
    ensures -1 <= i <= |s|
    ensures i == -1 <==> !Contains(s, sub)
    ensures i >= 0 ==> OccursAt(s, sub, i) && forall j: nat :: j < i ==> !OccursAt(s, sub, j)
  {
    IndexFrom(s, sub, 0)
  }

  function IndexFrom<T(==)>(s: seq<T>, sub: seq<T>, from: nat): (i: int)
    requires from <= |s|
    ensures i == -1 || from <= i <= |s|
    ensures i == -1 ==> forall j: nat :: from <= j ==> !OccursAt(s, sub, j)
    ensures i >= 0 ==> OccursAt(s, sub, i) && forall j: nat :: from <= j < i ==> !OccursAt(s, sub, j)
    decreases |s| - from
  {
    if OccursAt(s, sub, from) then from
    else if from == |s| then -1
    else IndexFrom(s, sub, from + 1)
  }

  /** strings.Split for a non-empty separator. */
  function Split<T(==)>(s: seq<T>, sep: seq<T>): (parts: seq<seq<T>>)
    requires sep != []
    ensures parts != []
    decreases |s|
  {
    var i := Index(s, sep);
    if i == -1 then [s] else [s[..i]] + Split(s[i + |sep|..], sep)
  }

  /** strings.Join. */
  function Join<T>(parts: seq<seq<T>>, sep: seq<T>): seq<T> {
    if parts == [] then []
    else if |parts| == 1 then parts[0]
    else parts[0] + sep + Join(parts[1..], sep)
  }

  /** strings.Repeat. */
  function Repeat<T>(s: seq<T>, n: nat): (r: seq<T>)
    ensures |r| == |s| * n
    ensures forall x :: x in r ==> x in s
  {
    if n == 0 then [] else s + Repeat(s, n - 1)
  }

  /** strings.ReplaceAll. Go returns the input untouched when the two texts agree, which is the only way the wallet
      ever passes an empty text to be replaced. */
  function ReplaceAll<T(==)>(s: seq<T>, was: seq<T>, becomes: seq<T>): seq<T>
    requires was == [] ==> becomes == []
    decreases |s|
  {
    if was == becomes then s
    else
      var i := Index(s, was);
      if i == -1 then s else s[..i] + becomes + ReplaceAll(s[i + |was|..], was, becomes)
  }

  /** strings.Replace with a limit of one replacement. */
  function ReplaceFirst<T(==)>(s: seq<T>, was: seq<T>, becomes: seq<T>): seq<T> {
    var i := Index(s, was);
    if i == -1 then s else s[..i] + becomes + s[i + |was|..]
  }

  /** strings.ToLower on ASCII text. */
  function Lower(s: string): (r: string)
    ensures |r| == |s|
    ensures forall i :: 0 <= i < |s| ==> r[i] == LowerChar(s[i])
  {
    seq(|s|, i requires 0 <= i < |s| => LowerChar(s[i]))
  }

  function LowerChar(c: char): char {
    if 'A' <= c <= 'Z' then c - 'A' + 'a' else c
  }

  /** strings.EqualFold on ASCII text. */
  predicate EqualFold(a: string, b: string) {
    Lower(a) == Lower(b)
  }

  /** strings.HasPrefix. */
  predicate HasPrefix<T(==)>(s: seq<T>, prefix: seq<T>) {
    prefix <= s
  }

  lemma LowerIdempotent(s: string)
    ensures Lower(Lower(s)) == Lower(s)
  {
    assert forall i :: 0 <= i < |s| ==> LowerChar(LowerChar(s[i])) == LowerChar(s[i]);
  }

  /** A letter and its other case. */
  predicate OtherCase(a: char, b: char) {
    ('A' <= a <= 'Z' && b as int == a as int + 32) || ('A' <= b <= 'Z' && a as int == b as int + 32)
  }

  /** Texts are equal up to case exactly when they agree place by place, or differ there in the case of a letter. */
  lemma EqualFoldExactlyWhen(a: string, b: string)
    ensures EqualFold(a, b) <==> |a| == |b| && forall i :: 0 <= i < |a| ==> a[i] == b[i] || OtherCase(a[i], b[i])
  {
    forall x: char, y: char
      ensures LowerChar(x) == LowerChar(y) <==> x == y || OtherCase(x, y)
    {
    }
    if EqualFold(a, b) {
      assert |Lower(a)| == |a| && |Lower(b)| == |b|;
      assert forall i :: 0 <= i < |a| ==> Lower(a)[i] == LowerChar(a[i]) && Lower(b)[i] == LowerChar(b[i]);
    }
  }

  /** A text is repeated by putting it after itself. */
  lemma {:induction false} RepeatAdds<T>(s: seq<T>, a: nat, b: nat)
    ensures Repeat(s, 1) == s && Repeat(s, a + b) == Repeat(s, a) + Repeat(s, b)
  {
    assert Repeat(s, 1) == s + Repeat(s, 0) == s;
    if a > 0 {
      RepeatAdds(s, a - 1, b);
      assert Repeat(s, a + b) == s + (Repeat(s, a - 1) + Repeat(s, b)) == s + Repeat(s, a - 1) + Repeat(s, b);
    }
  }

  // ---- splitting and joining undo each other -------------------------------------------------

  lemma JoinCons<T>(head: seq<T>, parts: seq<seq<T>>, sep: seq<T>)
    requires parts != []
    ensures Join([head] + parts, sep) == head + sep + Join(parts, sep)
  {
    assert ([head] + parts)[1..] == parts;
  }

  lemma CutAt<T>(s: seq<T>, sub: seq<T>, i: nat)
    requires OccursAt(s, sub, i)
    ensures s == s[..i] + sub + s[i + |sub|..]
  {
    assert s[..i] + s[i..i + |sub|] == s[..i + |sub|];
  }

  lemma SplitOff<T>(s: seq<T>, sep: seq<T>) returns (head: seq<T>, rest: seq<T>)
    requires sep != [] && Index(s, sep) != -1
    ensures Split(s, sep) == [head] + Split(rest, sep)
    ensures s == head + sep + rest
  {
    var i := Index(s, sep);
    CutAt(s, sep, i);
    head, rest := s[..i], s[i + |sep|..];
  }

  /** Joining what Split returned rebuilds the text, whatever the text is. */
  lemma {:induction false} JoinAfterSplit<T>(s: seq<T>, sep: seq<T>)
    requires sep != []
    ensures Join(Split(s, sep), sep) == s
    decreases |s|
  {
    if Index(s, sep) != -1 {
      var head, rest := SplitOff(s, sep);
      JoinAfterSplit(rest, sep);
      JoinCons(head, Split(rest, sep), sep);
    }
  }

  /** A list can be printed and split back: every part but the last is ended by the first separator found after its
      start, and the last part holds none. */
  ghost predicate Splittable<T>(parts: seq<seq<T>>, sep: seq<T>) {
    && parts != []
    && (forall i :: 0 <= i < |parts| - 1 ==> Index(parts[i] + sep, sep) == |parts[i]|)
    && !Contains(parts[|parts| - 1], sep)
  }

  lemma IndexInPrefix<T>(head: seq<T>, tail: seq<T>, sep: seq<T>)
    requires sep != []
    ensures Index(head + sep + tail, sep) == Index(head + sep, sep)
    ensures 0 <= Index(head + sep, sep) <= |head|
  {
    var all := head + sep + tail;
    var short := head + sep;
    assert OccursAt(short, sep, |head|);
    forall j: nat | j <= |head|
      ensures OccursAt(all, sep, j) == OccursAt(short, sep, j)
    {
      assert all[j..j + |sep|] == short[j..j + |sep|];
    }
  }

  /** Splitting the joined list gives the list back for exactly the splittable lists. */
  lemma {:induction false} SplitAfterJoin<T>(parts: seq<seq<T>>, sep: seq<T>)
    requires sep != [] && parts != []
    ensures Split(Join(parts, sep), sep) == parts <==> Splittable(parts, sep)
    decreases |parts|
  {
    if |parts| == 1 {
      SplitAlone(parts[0], sep);
      assert parts == [parts[0]];
    } else {
      SplitAfterJoin(parts[1..], sep);
      SplittableCons(parts, sep);
      SplitJoinedHead(parts[0], Join(parts[1..], sep), sep);
      EqualByHeadAndTail(Split(Join(parts, sep), sep), parts);
    }
  }

  lemma SplitAlone<T>(part: seq<T>, sep: seq<T>)
    requires sep != []
    ensures Split(part, sep) == [part] <==> !Contains(part, sep)
  {
    if Index(part, sep) != -1 {
      assert |Split(part, sep)| >= 2;
    }
  }

  lemma EqualByHeadAndTail<T>(a: seq<T>, b: seq<T>)
    requires a != [] && b != []
    ensures a == b <==> a[0] == b[0] && a[1..] == b[1..]
  {
    assert a == [a[0]] + a[1..] && b == [b[0]] + b[1..];
  }

  lemma SplittableCons<T>(parts: seq<seq<T>>, sep: seq<T>)
    requires sep != [] && |parts| > 1
    ensures Splittable(parts, sep) <==> Index(parts[0] + sep, sep) == |parts[0]| && Splittable(parts[1..], sep)
  {
    var tail := parts[1..];
    assert forall k :: 0 <= k < |tail| ==> tail[k] == parts[k + 1];
    assert forall k :: 1 <= k < |parts| ==> parts[k] == tail[k - 1];
  }

  /** The first part split off a joined text is its head exactly when the first separator is the one put after it, and
      then the rest is split on its own. */
  lemma SplitJoinedHead<T>(head: seq<T>, rest: seq<T>, sep: seq<T>)
    requires sep != []
    ensures var split := Split(head + sep + rest, sep);
            && (split[0] == head <==> Index(head + sep, sep) == |head|)
            && (split[0] == head ==> split[1..] == Split(rest, sep))
  {
    var text := head + sep + rest;
    IndexInPrefix(head, rest, sep);
    var i := Index(text, sep);
    assert |text[..i]| == i;
    if i == |head| {
      assert text[..i] == head && text[i + |sep|..] == rest;
    }
  }

  /** For a one-element separator, the splittable lists are those free of that element. */
  lemma SplittableBySingle<T>(parts: seq<seq<T>>, x: T)
    requires parts != []
    ensures Splittable(parts, [x]) <==> forall i :: 0 <= i < |parts| ==> x !in parts[i]
  {
    forall i | 0 <= i < |parts|
      ensures Index(parts[i] + [x], [x]) == |parts[i]| <==> x !in parts[i]
      ensures Contains(parts[i], [x]) <==> x in parts[i]
    {
      SingleOccurrence(parts[i], x);
      SingleAtEnd(parts[i], x);
    }
  }

  lemma SingleAtEnd<T>(part: seq<T>, x: T)
    ensures Index(part + [x], [x]) == |part| <==> x !in part
  {
    var whole := part + [x];
    forall j: nat | j < |whole|
      ensures OccursAt(whole, [x], j) <==> whole[j] == x
    {
      assert whole[j..j + 1] == [whole[j]];
    }
    assert whole[|part|] == x;
    if x in part {
      var j :| 0 <= j < |part| && part[j] == x;
      assert whole[j] == x;
    }
  }

  lemma SingleOccurrence<T>(s: seq<T>, x: T)
    ensures Contains(s, [x]) <==> x in s
  {
    forall j: nat | j < |s|
      ensures OccursAt(s, [x], j) <==> s[j] == x
    {
      assert s[j..j + 1] == [s[j]];
    }
  }
}
