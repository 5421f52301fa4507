/** Masking of claim values: every occurrence of the captured text is replaced by one mask per byte. */
module Masking {
  import opened Outcomes
  import opened GoText

  /** A compiled pattern, as far as it is used: the text left when each match is replaced by its first group. */
  type Regex = Bytes -> Bytes

  function MaskText(raw: Bytes, captured: Bytes, mask: Bytes): Bytes {
    ReplaceAll(raw, captured, Repeat(mask, |captured|))
  }

  /** The pattern is what stands between "regex(" and ")"; a shorter text makes the program panic. */
  function GetMaskedValue(compile: Bytes -> Option<Regex>, raw: Bytes, pattern: Bytes, mask: Bytes)
    : (r: Outcome<Bytes, string>)
    ensures r.Panic? <==> |pattern| < 7
  {
    if |pattern| < 7 then Panic
    else
      var regex := compile(pattern[6..|pattern| - 1]);
      if regex.None? then Err("pattern does not compile") else Ok(MaskText(raw, regex.value(raw), mask))
  }

  /** strings.Count: occurrences that do not overlap, leftmost first. */
  function Count(s: Bytes, sub: Bytes): nat
    requires sub != []
  {
    |Split(s, sub)| - 1
  }

  // ---- replacing is splitting and joining ----------------------------------------------------

  lemma {:induction false} ReplaceAllIsJoin(s: Bytes, was: Bytes, becomes: Bytes)
    requires was != []
    ensures ReplaceAll(s, was, becomes) == Join(Split(s, was), becomes)
    decreases |s|
  {
    if was == becomes {
      JoinAfterSplit(s, was);
    } else {
      var i := Index(s, was);
      if i != -1 {
        var rest := s[i + |was|..];
        ReplaceAllIsJoin(rest, was, becomes);
        assert Split(s, was)[1..] == Split(rest, was);
      }
    }
  }

  function TotalLength(parts: seq<Bytes>): nat {
    if parts == [] then 0 else |parts[0]| + TotalLength(parts[1..])
  }

  lemma {:induction false} JoinLength(parts: seq<Bytes>, sep: Bytes)
    requires parts != []
    ensures |Join(parts, sep)| == TotalLength(parts) + (|parts| - 1) * |sep|
    decreases |parts|
  {
    if |parts| > 1 {
      JoinLength(parts[1..], sep);
      assert (|parts| - 1) * |sep| == |sep| + (|parts| - 2) * |sep|;
    }
  }

  lemma ReplaceAllLength(s: Bytes, was: Bytes, becomes: Bytes)
    requires was != []
    ensures |ReplaceAll(s, was, becomes)| == |s| + Count(s, was) * (|becomes| - |was|)
  {
    var parts := Split(s, was);
    ReplaceAllIsJoin(s, was, becomes);
    JoinAfterSplit(s, was);
    JoinLength(parts, was);
    JoinLength(parts, becomes);
    Distribute(|parts| - 1, |becomes|, |was|);
  }

  // ---- the masking laws ----------------------------------------------------------------------

  /** A captured text that occurs k times makes the value k * |captured| * (|mask| - 1) bytes longer. */
  lemma MaskedLength(raw: Bytes, captured: Bytes, mask: Bytes)
    requires captured != []
    ensures |MaskText(raw, captured, mask)| == |raw| + Count(raw, captured) * (|captured| * (|mask| - 1))
  {
    ReplaceAllLength(raw, captured, Repeat(mask, |captured|));
    Distribute(|captured|, |mask|, 1);
  }

  lemma Distribute(n: int, a: int, b: int)
    ensures n * a - n * b == n * (a - b)
  {
  }

  /** What is not masked is kept: the masked value is the unmasked parts in order, with the same number of masks between
      any two of them. */
  lemma MaskedParts(raw: Bytes, captured: Bytes, mask: Bytes)
    requires captured != []
    ensures raw == Join(Split(raw, captured), captured)
    ensures MaskText(raw, captured, mask) == Join(Split(raw, captured), Repeat(mask, |captured|))
  {
    JoinAfterSplit(raw, captured);
    ReplaceAllIsJoin(raw, captured, Repeat(mask, |captured|));
  }

  // ---- which masks hide the captured text ----------------------------------------------------

  /** Masks can bring back the text they replace: within themselves, with the text that follows them, or with the text
      before them, unless the occurrence they replace would have begun earlier. */
  ghost predicate Leaks(captured: Bytes, masks: Bytes)
    requires |captured| <= |masks|
  {
    || Contains(masks, captured)
    || (exists n :: 0 < n < |captured| && captured[..n] == masks[|masks| - n..])
    || (exists n :: 0 < n < |captured| && captured[n..] == masks[..|captured| - n] &&
          Index(captured[..n] + captured, captured) == n)
  }

  function Masks(mask: Bytes, n: nat): (masks: Bytes)
    requires mask != []
    ensures n <= |masks| && forall i :: 0 <= i < |masks| ==> masks[i] in mask
  {
    assert |mask| * n == n + (|mask| - 1) * n;
    Repeat(mask, n)
  }

  /** A non-empty mask leaves no occurrence of the captured text in any value exactly when it does not leak. */
  lemma MaskHidesExactlyWhen(captured: Bytes, mask: Bytes)
    requires captured != [] && mask != []
    ensures !Leaks(captured, Masks(mask, |captured|)) <==>
            forall raw: Bytes :: !Contains(MaskText(raw, captured, mask), captured)
  {
    var masks := Masks(mask, |captured|);
    if Leaks(captured, masks) {
      var raw := LeakWitness(captured, mask);
    } else {
      forall raw: Bytes
        ensures !Contains(MaskText(raw, captured, mask), captured)
      {
        MaskedParts(raw, captured, mask);
        SplitIsSplitBy(raw, captured);
        ReplacedHides(Split(raw, captured), captured, masks);
        NowhereIsNotContained(MaskText(raw, captured, mask), captured);
      }
    }
  }

  // Occurrences, position by position.

  ghost predicate At(s: Bytes, sub: Bytes, i: nat) {
    i + |sub| <= |s| && forall k :: 0 <= k < |sub| ==> sub[k] == s[i + k]
  }

  lemma AtIsOccursAt(s: Bytes, sub: Bytes, i: nat)
    ensures At(s, sub, i) <==> OccursAt(s, sub, i)
  {
    if i + |sub| <= |s| {
      var part := s[i..i + |sub|];
      assert forall k :: 0 <= k < |sub| ==> part[k] == s[i + k];
    }
  }

  ghost predicate Nowhere(s: Bytes, sub: Bytes) {
    forall i: nat :: !At(s, sub, i)
  }

  lemma NowhereIsNotContained(s: Bytes, sub: Bytes)
    ensures Nowhere(s, sub) <==> !Contains(s, sub)
  {
    forall i: nat
      ensures At(s, sub, i) <==> OccursAt(s, sub, i)
    {
      AtIsOccursAt(s, sub, i);
    }
  }

  /** The text occurs at the end of the head it is put after, and not before. */
  ghost predicate FirstAtEnd(head: Bytes, sub: Bytes) {
    forall i: nat :: i < |head| ==> !At(head + sub, sub, i)
  }

  lemma FirstAtEndIsIndex(head: Bytes, sub: Bytes)
    ensures FirstAtEnd(head, sub) <==> Index(head + sub, sub) == |head|
  {
    AtIsOccursAt(head + sub, sub, |head|);
    forall i: nat
      ensures At(head + sub, sub, i) <==> OccursAt(head + sub, sub, i)
    {
      AtIsOccursAt(head + sub, sub, i);
    }
  }

  /** The parts a text is split into by another: each but the last ends where that text first occurs. */
  ghost predicate SplitBy(parts: seq<Bytes>, was: Bytes) {
    && parts != []
    && (forall i :: 0 <= i < |parts| - 1 ==> FirstAtEnd(parts[i], was))
    && Nowhere(parts[|parts| - 1], was)
  }

  lemma SplitIsSplitBy(s: Bytes, was: Bytes)
    requires was != []
    ensures SplitBy(Split(s, was), was)
  {
    var parts := Split(s, was);
    JoinAfterSplit(s, was);
    SplitAfterJoin(parts, was);
    forall i | 0 <= i < |parts| - 1
      ensures FirstAtEnd(parts[i], was)
    {
      FirstAtEndIsIndex(parts[i], was);
    }
    NowhereIsNotContained(parts[|parts| - 1], was);
  }

  lemma {:induction false} ReplacedHides(parts: seq<Bytes>, was: Bytes, masks: Bytes)
    requires was != [] && |was| <= |masks| && !Leaks(was, masks) && SplitBy(parts, was)
    ensures Nowhere(Join(parts, masks), was)
    decreases |parts|
  {
    if |parts| > 1 {
      ReplacedHides(parts[1..], was, masks);
      MasksBetween(parts[0], was, masks, Join(parts[1..], masks));
    }
  }

  lemma MasksBetween(head: Bytes, was: Bytes, masks: Bytes, tail: Bytes)
    requires was != [] && |was| <= |masks| && !Leaks(was, masks) && FirstAtEnd(head, was) && Nowhere(tail, was)
    ensures Nowhere(head + masks + tail, was)
  {
    forall j: nat
      ensures !At(head + masks + tail, was, j)
    {
      if At(head + masks + tail, was, j) {
        OccurrenceLeaks(head, was, masks, tail, j);
      }
    }
  }

  /** Wherever an occurrence starts in the replaced text, it was there before or the masks leak. */
  lemma OccurrenceLeaks(head: Bytes, was: Bytes, masks: Bytes, tail: Bytes, j: nat)
    requires was != [] && |was| <= |masks| && FirstAtEnd(head, was) && At(head + masks + tail, was, j)
    ensures Leaks(was, masks) || !Nowhere(tail, was)
  {
    if j < |head| {
      assert j + |was| <= |head| ==> At(head + was, was, j);
      OverlapsHead(head, was, masks, tail, j);
    } else if j + |was| <= |head| + |masks| {
      assert At(masks, was, j - |head|);
      AtIsOccursAt(masks, was, j - |head|);
    } else if j < |head| + |masks| {
      OverlapsTail(head, was, masks, tail, j);
    } else {
      assert At(tail, was, j - |head| - |masks|);
    }
  }

  /** An occurrence that begins before the masks and ends in them is the third kind of leak. */
  lemma OverlapsHead(head: Bytes, was: Bytes, masks: Bytes, tail: Bytes, j: nat)
    requires |was| <= |masks| && FirstAtEnd(head, was)
    requires j < |head| < j + |was| && At(head + masks + tail, was, j)
    ensures Leaks(was, masks)
  {
    var n := |head| - j;
    assert was[n..] == masks[..|was| - n];
    assert was[..n] == head[j..];
    forall k: nat | k < n
      ensures !At(was[..n] + was, was, k)
    {
      assert At(was[..n] + was, was, k) ==> At(head + was, was, j + k);
    }
    FirstAtEndIsIndex(was[..n], was);
  }

  /** One that begins in the masks and ends after them is the second kind. */
  lemma OverlapsTail(head: Bytes, was: Bytes, masks: Bytes, tail: Bytes, j: nat)
    requires |was| <= |masks| && At(head + masks + tail, was, j)
    requires |head| <= j < |head| + |masks| < j + |was|
    ensures Leaks(was, masks)
  {
    var n := |head| + |masks| - j;
    assert was[..n] == masks[|masks| - n..];
  }

  /** A text that holds the captured text once has just that place masked. */
  lemma ReplacedOnce(head: Bytes, was: Bytes, tail: Bytes, becomes: Bytes)
    requires was != [] && was != becomes && |tail| < |was| && FirstAtEnd(head, was)
    ensures ReplaceAll(head + was + tail, was, becomes) == head + becomes + tail
  {
    FirstAtEndIsIndex(head, was);
    IndexInPrefix(head, tail, was);
    var s := head + was + tail;
    assert s[..|head|] == head && s[|head| + |was|..] == tail;
    assert Index(tail, was) == -1;
  }

  /** A value that a leaking mask fails to hide. */
  lemma LeakWitness(captured: Bytes, mask: Bytes) returns (raw: Bytes)
    requires captured != [] && mask != [] && Leaks(captured, Masks(mask, |captured|))
    ensures Contains(MaskText(raw, captured, mask), captured)
  {
    var masks := Masks(mask, |captured|);
    if Contains(masks, captured) {
      raw := captured;
      UnmatchedIsMaskedWhole(raw, mask);
    } else {
      AtIsOccursAt(captured, captured, 0);
      if n :| 0 < n < |captured| && captured[..n] == masks[|masks| - n..] {
        raw := [] + captured + captured[n..];
        LeakIntoTail(captured, masks, n);
      } else {
        var n :| 0 < n < |captured| && captured[n..] == masks[..|captured| - n] &&
          Index(captured[..n] + captured, captured) == n;
        raw := captured[..n] + captured + [];
        LeakIntoMasks(captured, masks, n);
      }
    }
  }

  lemma LeakIntoTail(captured: Bytes, masks: Bytes, n: nat)
    requires captured != masks && |captured| <= |masks|
    requires 0 < n < |captured| && captured[..n] == masks[|masks| - n..]
    ensures Contains(ReplaceAll([] + captured + captured[n..], captured, masks), captured)
  {
    ReplacedOnce([], captured, captured[n..], masks);
    EndAndRest(captured, masks, n);
    AtIsOccursAt([] + masks + captured[n..], captured, |masks| - n);
  }

  lemma EndAndRest(captured: Bytes, masks: Bytes, n: nat)
    requires n <= |captured| <= |masks| && captured[..n] == masks[|masks| - n..]
    ensures At([] + masks + captured[n..], captured, |masks| - n)
  {
    var end, all := captured[..n], [] + masks + captured[n..];
    forall k | 0 <= k < |captured|
      ensures captured[k] == all[|masks| - n + k]
    {
      if k < n {
        assert captured[k] == end[k] == masks[|masks| - n + k];
      }
    }
  }

  lemma LeakIntoMasks(captured: Bytes, masks: Bytes, n: nat)
    requires captured != masks && |captured| <= |masks|
    requires 0 < n < |captured| && captured[n..] == masks[..|captured| - n]
    requires Index(captured[..n] + captured, captured) == n
    ensures Contains(ReplaceAll(captured[..n] + captured + [], captured, masks), captured)
  {
    FirstAtEndIsIndex(captured[..n], captured);
    ReplacedOnce(captured[..n], captured, [], masks);
    FrontAndMasks(captured, masks, n);
    AtIsOccursAt(captured[..n] + masks + [], captured, 0);
  }

  lemma FrontAndMasks(captured: Bytes, masks: Bytes, n: nat)
    requires n <= |captured| <= |masks| && captured[n..] == masks[..|captured| - n]
    ensures At(captured[..n] + masks + [], captured, 0)
  {
    var rest, all := captured[n..], captured[..n] + masks + [];
    forall k | 0 <= k < |captured|
      ensures captured[k] == all[0 + k]
    {
      if k >= n {
        assert captured[k] == rest[k - n] == masks[k - n];
      }
    }
  }

  // ---- the shortest masks --------------------------------------------------------------------

  /** A mask of one byte hides a text exactly when the text neither begins nor ends with that byte. */
  lemma ByteMaskHidesExactlyWhen(captured: Bytes, c: byte)
    requires captured != []
    ensures captured[0] != c && captured[|captured| - 1] != c <==>
            forall raw: Bytes :: !Contains(MaskText(raw, captured, [c]), captured)
  {
    if captured[0] != c && captured[|captured| - 1] != c {
      ForeignMaskIsTight(captured, [c]);
    } else {
      ByteMaskLeaks(captured, c);
    }
    MaskHidesExactlyWhen(captured, [c]);
  }

  /** Masks cannot leak if they hold neither the first byte of the text nor its last. */
  lemma ForeignMaskIsTight(captured: Bytes, mask: Bytes)
    requires captured != [] && mask != [] && captured[0] !in mask && captured[|captured| - 1] !in mask
    ensures !Leaks(captured, Masks(mask, |captured|))
  {
    var masks, last := Masks(mask, |captured|), |captured| - 1;
    forall j: nat
      ensures !At(masks, captured, j)
    {
      assert j < |masks| ==> masks[j + 0] in mask;
    }
    NowhereIsNotContained(masks, captured);
    forall n | 0 < n < |captured|
      ensures captured[..n] != masks[|masks| - n..] && captured[n..] != masks[..|captured| - n]
    {
      assert captured[..n][0] != masks[|masks| - n..][0];
      assert captured[n..][last - n] != masks[..|captured| - n][last - n];
    }
  }

  lemma ByteMaskLeaks(captured: Bytes, c: byte)
    requires captured != [] && (captured[0] == c || captured[|captured| - 1] == c)
    ensures Leaks(captured, Masks([c], |captured|))
  {
    var masks, last := Masks([c], |captured|), |captured| - 1;
    if last == 0 {
      AtIsOccursAt(masks, captured, 0);
    } else if captured[0] == c {
      assert captured[..1] == masks[|masks| - 1..];
    } else {
      assert captured[last..] == masks[..|captured| - last];
      EndFirstAtEnd(captured);
      FirstAtEndIsIndex(captured[..last], captured);
    }
  }

  /** A text that does not begin with its last byte occurs first at the end of itself put after its front. */
  lemma EndFirstAtEnd(v: Bytes)
    requires |v| > 1 && v[0] != v[|v| - 1]
    ensures FirstAtEnd(v[..|v| - 1], v)
  {
    var twice := v[..|v| - 1] + v;
    forall j: nat | j < |v| - 1
      ensures !At(twice, v, j)
    {
      if At(twice, v, j) {
        RepeatsLastByte(v, j);
      }
    }
  }

  /** If it occurs earlier, its first byte is its last: one occurrence holds as many of that byte as the other. */
  lemma RepeatsLastByte(v: Bytes, j: nat)
    requires |v| > 1 && j < |v| - 1 && At(v[..|v| - 1] + v, v, j)
    ensures v[0] == v[|v| - 1]
  {
    var n, c := |v| - 1, v[|v| - 1];
    var front, middle := v[..j], v[j..n];
    assert v[0] == (v[..n] + v)[j + 0] == v[j];
    assert v == front + middle + [c];
    assert v == middle + front + [v[j]];
    SameRest(front, middle, c, v[j]);
  }

  lemma SameRest(a: Bytes, b: Bytes, x: byte, y: byte)
    requires a + b + [x] == b + a + [y]
    ensures x == y
  {
    assert (a + b + [x])[|a| + |b|] == x && (b + a + [y])[|a| + |b|] == y;
  }

  /** With an empty mask the captured text is gone for good exactly when all its bytes are the same. */
  lemma EmptyMaskHidesExactlyWhen(captured: Bytes)
    requires captured != []
    ensures Uniform(captured) <==> forall raw: Bytes :: !Contains(MaskText(raw, captured, []), captured)
  {
    if Uniform(captured) {
      assert Repeat<byte>([], |captured|) == [];
      forall raw: Bytes
        ensures !Contains(MaskText(raw, captured, []), captured)
      {
        MaskedParts(raw, captured, []);
        SplitIsSplitBy(raw, captured);
        RemovedForGood(Split(raw, captured), captured);
        NowhereIsNotContained(MaskText(raw, captured, []), captured);
      }
    } else {
      var raw := RemovalWitness(captured);
    }
  }

  predicate Uniform(v: Bytes) {
    forall i :: 0 <= i < |v| ==> v[i] == v[0]
  }

  lemma {:induction false} RemovedForGood(parts: seq<Bytes>, was: Bytes)
    requires was != [] && Uniform(was) && SplitBy(parts, was)
    ensures Nowhere(Join(parts, []), was)
    decreases |parts|
  {
    if |parts| > 1 {
      RemovedForGood(parts[1..], was);
      RemovalBetween(parts[0], was, Join(parts[1..], []));
    }
  }

  lemma RemovalBetween(head: Bytes, was: Bytes, tail: Bytes)
    requires was != [] && Uniform(was) && FirstAtEnd(head, was) && Nowhere(tail, was)
    ensures Nowhere(head + [] + tail, was)
  {
    forall j: nat
      ensures !At(head + [] + tail, was, j)
    {
      if At(head + [] + tail, was, j) {
        if j < |head| {
          AcrossRemoval(head, was, tail, j);
        } else {
          assert At(tail, was, j - |head|);
        }
      }
    }
  }

  /** A run that reaches the end of the head would have been found one place earlier. */
  lemma AcrossRemoval(head: Bytes, was: Bytes, tail: Bytes, j: nat)
    requires was != [] && Uniform(was) && j < |head| && At(head + [] + tail, was, j)
    ensures !FirstAtEnd(head, was)
  {
    if j + |was| <= |head| {
      assert At(head + was, was, j);
    } else {
      assert was[|head| - 1 - j] == head[|head| - 1];
      assert At(head + was, was, |head| - 1);
    }
  }

  lemma FirstOther(v: Bytes) returns (i: nat)
    requires !Uniform(v)
    ensures 0 < i < |v| && v[i] != v[0] && forall k :: 0 <= k < i ==> v[k] == v[0]
  {
    i := 1;
    while v[i] == v[0]
      invariant 0 < i < |v| && forall k :: 0 <= k < i ==> v[k] == v[0]
      decreases |v| - i
    {
      i := i + 1;
    }
  }

  lemma RunFirstAtEnd(v: Bytes, i: nat)
    requires 0 < i < |v| && v[i] != v[0] && forall k :: 0 <= k < i ==> v[k] == v[0]
    ensures FirstAtEnd(v[..i], v)
  {
    forall k: nat | k < i
      ensures !At(v[..i] + v, v, k)
    {
      assert (v[..i] + v)[k + i] == v[0];
    }
  }

  lemma RemovalReveals(v: Bytes, i: nat)
    requires 0 < i < |v| && v[i] != v[0] && forall k :: 0 <= k < i ==> v[k] == v[0]
    ensures ReplaceAll(v[..i] + v + v[i..], v, []) == v
  {
    RunFirstAtEnd(v, i);
    ReplacedOnce(v[..i], v, v[i..], []);
    CutIsWhole(v, i);
  }

  lemma RemovalWitness(captured: Bytes) returns (raw: Bytes)
    requires !Uniform(captured)
    ensures Contains(MaskText(raw, captured, []), captured)
  {
    var i := FirstOther(captured);
    raw := captured[..i] + captured + captured[i..];
    RemovalReveals(captured, i);
    AtIsOccursAt(captured, captured, 0);
    assert Repeat<byte>([], |captured|) == [];
  }

  lemma CutIsWhole(v: Bytes, i: nat)
    requires i <= |v|
    ensures v[..i] + [] + v[i..] == v
  {
  }

  /** The value is what is left of the text around the captured one, with one mask for each of its bytes in between. */
  ghost predicate IsMasked(raw: Bytes, captured: Bytes, mask: Bytes, value: Bytes) {
    if captured == [] then value == raw
    else value == Join(Split(raw, captured), Repeat(mask, |captured|))
  }

  /** The pattern is what stands between six bytes and one. If it compiles, what it captures in the value is masked in the
      value; otherwise there is an error. */
  lemma MaskedValueIs(compile: Bytes -> Option<Regex>, raw: Bytes, head: Bytes, pattern: Bytes, last: byte, mask: Bytes)
    requires |head| == 6
    ensures var r := GetMaskedValue(compile, raw, head + pattern + [last], mask);
            match compile(pattern)
            case None => r.Err?
            case Some(regex) => r.Ok? && IsMasked(raw, regex(raw), mask, r.value)
  {
    var whole := head + pattern + [last];
    assert whole[6..|whole| - 1] == pattern;
    if compile(pattern).Some? {
      var captured := compile(pattern).value(raw);
      if captured != [] {
        MaskedParts(raw, captured, mask);
      }
    }
  }

  /** So the captured text is nowhere in the value, if the mask does not leak. */
  lemma MaskedValueHides(raw: Bytes, captured: Bytes, mask: Bytes, value: Bytes)
    requires captured != [] && mask != [] && IsMasked(raw, captured, mask, value)
    requires !Leaks(captured, Masks(mask, |captured|))
    ensures !Contains(value, captured)
  {
    MaskedParts(raw, captured, mask);
    MaskHidesExactlyWhen(captured, mask);
    assert !Contains(MaskText(raw, captured, mask), captured);
  }

  ghost predicate Disjoint(a: Bytes, b: Bytes) {
    forall i, j :: 0 <= i < |a| && 0 <= j < |b| ==> a[i] != b[j]
  }

  /** A mask that shares no byte with the captured text does not leak. */
  lemma MaskedHidesCaptured(raw: Bytes, captured: Bytes, mask: Bytes)
    requires captured != [] && mask != [] && Disjoint(captured, mask)
    ensures !Contains(MaskText(raw, captured, mask), captured)
  {
    ForeignMaskIsTight(captured, mask);
    MaskHidesExactlyWhen(captured, mask);
  }

  /** A pattern that does not match leaves the value as its own captured text, so all of it is masked. */
  lemma UnmatchedIsMaskedWhole(raw: Bytes, mask: Bytes)
    ensures MaskText(raw, raw, mask) == Repeat(mask, |raw|)
  {
    var masks := Repeat(mask, |raw|);
    if raw != masks {
      assert OccursAt(raw, raw, 0) && Index(raw, raw) == 0;
      var rest := raw[0 + |raw|..];
      assert rest == [] && Index(rest, raw) == -1;
      assert ReplaceAll(rest, raw, masks) == [];
    }
  }

  /** Masking changes nothing exactly when the captured text does not occur in the value, or is its own masking. */
  lemma MaskingIsNoOpExactlyWhen(raw: Bytes, captured: Bytes, mask: Bytes)
    requires captured != []
    ensures MaskText(raw, captured, mask) == raw <==> !Contains(raw, captured) || Repeat(mask, |captured|) == captured
  {
    var masks := Repeat(mask, |captured|);
    if masks != captured && Contains(raw, captured) {
      ReplacingChanges(raw, captured, masks);
    }
  }

  lemma ReplacingChanges(s: Bytes, was: Bytes, becomes: Bytes)
    requires was != [] && was != becomes && Contains(s, was)
    ensures ReplaceAll(s, was, becomes) != s
  {
    var i := Index(s, was);
    if |was| == |becomes| {
      assert ReplaceAll(s, was, becomes)[i..i + |was|] == becomes;
      assert s[i..i + |was|] == was;
    } else {
      ReplaceAllLength(s, was, becomes);
      NonZeroProduct(Count(s, was), |becomes| - |was|);
    }
  }

  lemma NonZeroProduct(a: int, b: int)
    requires a != 0 && b != 0
    ensures a * b != 0
  {
  }

  /** A pattern that matches raw[start..end] once, with its group at raw[from..upto], captures the value with the match
      cut down to the group. */
  function CapturedBy(raw: Bytes, start: nat, end: nat, from: nat, upto: nat): Bytes
    requires start <= from <= upto <= end <= |raw|
  {
    raw[..start] + raw[from..upto] + raw[end..]
  }

  /** A pattern that matches the whole value captures just its group, which then occurs nowhere in the masked value. */
  lemma WholeMatchHidesGroup(raw: Bytes, from: nat, upto: nat, mask: Bytes)
    requires from < upto <= |raw| && mask != [] && Disjoint(raw[from..upto], mask)
    ensures CapturedBy(raw, 0, |raw|, from, upto) == raw[from..upto]
    ensures !Contains(MaskText(raw, CapturedBy(raw, 0, |raw|, from, upto), mask), raw[from..upto])
  {
    assert CapturedBy(raw, 0, |raw|, from, upto) == raw[from..upto];
    MaskedHidesCaptured(raw, raw[from..upto], mask);
  }

  /** A pattern that matches only part of the value may mask nothing at all: matching "b1" in "ab1" with the group "1"
      captures "a1", which does not occur. */
  lemma PartialMatchCanMaskNothing()
    ensures var raw: Bytes := [97, 98, 49];
            var captured := CapturedBy(raw, 1, 3, 2, 3);
            captured == [97, 49] && MaskText(raw, captured, [42]) == raw
  {
    var raw: Bytes := [97, 98, 49];
    var captured := CapturedBy(raw, 1, 3, 2, 3);
    assert captured == [97, 49];
    assert raw[0..2] == [97, 98] && raw[1..3] == [98, 49];
    assert !OccursAt(raw, captured, 0) && !OccursAt(raw, captured, 1);
    MaskingIsNoOpExactlyWhen(raw, captured, [42]);
  }

  /** A mask that is part of the captured text can bring it back: masking "xc" in "xxc" with "c" gives "xcc". */
  lemma MaskCanReveal()
    ensures var raw: Bytes := [120, 120, 99]; MaskText(raw, [120, 99], [99]) == [120, 99, 99]
  {
    var captured: Bytes := [120, 99];
    assert ([120] + captured)[0 + 1] == 120 && captured[1] == 99;
    assert [120] + captured + [] == [120, 120, 99];
    assert Repeat<byte>([99], 1) == [99] && Repeat<byte>([99], 2) == [99, 99];
    ReplacedOnce([120], captured, [], [99, 99]);
  }

  /** With an empty mask, removing "ab" from "aabb" leaves "ab". */
  lemma EmptyMaskCanReveal()
    ensures var raw: Bytes := [97, 97, 98, 98]; MaskText(raw, [97, 98], []) == [97, 98]
  {
    var captured: Bytes := [97, 98];
    assert ([97] + captured)[0 + 1] == 97 && captured[1] == 98;
    assert [97] + captured + [98] == [97, 97, 98, 98];
    assert Repeat<byte>([], 2) == [];
    ReplacedOnce([97], captured, [98], []);
  }

  // ---- bytes and characters ------------------------------------------------------------------

  /** A byte that continues a character in UTF-8 (RFC 3629, section 3). */
  predicate Continuation(b: byte) {
    0x80 <= b < 0xC0
  }

  /** The characters of a UTF-8 text: its bytes that begin one. */
  function Characters(s: Bytes): (n: nat)
    ensures n <= |s|
    ensures n == |s| <==> forall i :: 0 <= i < |s| ==> !Continuation(s[i])
  {
    if s == [] then 0 else Characters(s[1..]) + if Continuation(s[0]) then 0 else 1
  }

  lemma LongerMasks(mask: Bytes, a: nat, b: nat)
    requires mask != [] && a < b
    ensures |Repeat(mask, a)| < |Repeat(mask, b)|
  {
    Distribute(|mask|, b, a);
    NonZeroProduct(|mask|, b - a);
  }

  lemma LengthShows(parts: seq<Bytes>, a: Bytes, b: Bytes)
    requires |parts| > 1 && |a| != |b|
    ensures Join(parts, a) != Join(parts, b)
  {
    JoinLength(parts, a);
    JoinLength(parts, b);
    Distribute(|parts| - 1, |a|, |b|);
    NonZeroProduct(|parts| - 1, |a| - |b|);
  }

  lemma SplitsWhenContained(s: Bytes, was: Bytes)
    requires was != []
    ensures Contains(s, was) <==> |Split(s, was)| > 1
  {
  }

  /** Masking is promised to be per character. It is so exactly when nothing is masked, the mask is empty, or every
      character of the captured text is one byte long. */
  lemma PerCharacterExactlyWhen(raw: Bytes, captured: Bytes, mask: Bytes)
    requires captured != []
    ensures MaskText(raw, captured, mask) == ReplaceAll(raw, captured, Repeat(mask, Characters(captured))) <==>
            !Contains(raw, captured) || mask == [] || forall i :: 0 <= i < |captured| ==> !Continuation(captured[i])
  {
    var perByte, perCharacter := Repeat(mask, |captured|), Repeat(mask, Characters(captured));
    ReplaceAllIsJoin(raw, captured, perByte);
    ReplaceAllIsJoin(raw, captured, perCharacter);
    SplitsWhenContained(raw, captured);
    if mask == [] {
      assert perByte == [] == perCharacter;
    } else if Contains(raw, captured) && Characters(captured) < |captured| {
      LongerMasks(mask, Characters(captured), |captured|);
      LengthShows(Split(raw, captured), perByte, perCharacter);
    }
  }
}
