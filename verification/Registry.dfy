/** The provider's registry of open stores, as a value: lower-cased store names mapped to handles. */
module Registry {
  import opened GoText

  /** What the provider's callers do to the registry. An Open carries the handle it returned, and a CloseStore the name
      of the store that the handle being closed was created with. */
  datatype Event<H> = Open(name: string, handle: H) | CloseStore(storeName: string) | CloseAll

  function Step<H>(dbs: map<string, H>, e: Event<H>): map<string, H> {
    match e
    case Open(name, handle) => if name == "" || Lower(name) in dbs then dbs else dbs[Lower(name) := handle]
    case CloseStore(storeName) => dbs - {storeName}
    case CloseAll => map[]
  }

  function Run<H>(events: seq<Event<H>>): map<string, H> {
    if events == [] then map[] else Step(Run(events[..|events| - 1]), events[|events| - 1])
  }

  /** The Open at this position found its name unregistered, and created a store. */
  ghost predicate Creates<H>(events: seq<Event<H>>, at: nat) {
    at < |events| && events[at].Open? && Lower(events[at].name) !in Run(events[..at])
  }

  /** What the provider records: every Open has a name and the handle registered after it, and a handle that was created
      is none of those returned before. */
  ghost predicate IsHistory<H>(events: seq<Event<H>>) {
    AllReturn(events) && forall j: nat :: Creates(events, j) ==> NewTo(events[..j], events[j].handle)
  }

  ghost predicate AllReturn<H>(events: seq<Event<H>>) {
    forall i :: 0 <= i < |events| && events[i].Open? ==> Returns(events, i)
  }

  ghost predicate NewTo<H>(events: seq<Event<H>>, handle: H) {
    forall i :: 0 <= i < |events| && events[i].Open? ==> events[i].handle != handle
  }

  ghost predicate Returns<H>(events: seq<Event<H>>, at: nat)
    requires at < |events| && events[at].Open?
  {
    var name, dbs := Lower(events[at].name), Run(events[..at + 1]);
    name != "" && name in dbs && dbs[name] == events[at].handle
  }

  /** The event closes the store of that lower-cased name, whichever handle it came through. */
  predicate Closes<H>(e: Event<H>, storeName: string) {
    e.CloseAll? || (e.CloseStore? && e.storeName == storeName)
  }

  // ---- recording one more event --------------------------------------------------------------

  lemma RunSnoc<H>(events: seq<Event<H>>, e: Event<H>)
    ensures Run(events + [e]) == Step(Run(events), e)
  {
    assert (events + [e])[..|events|] == events;
  }

  lemma EarlierKept<H>(events: seq<Event<H>>, e: Event<H>, i: nat)
    requires i < |events|
    ensures Creates(events + [e], i) <==> Creates(events, i)
    ensures events[i].Open? ==> (Returns(events + [e], i) <==> Returns(events, i))
  {
    assert (events + [e])[..i] == events[..i] && (events + [e])[..i + 1] == events[..i + 1];
  }

  lemma AllReturnSnoc<H>(events: seq<Event<H>>, e: Event<H>)
    requires AllReturn(events) && (e.Open? ==> e.name != "")
    requires e.Open? && Lower(e.name) in Run(events) ==> e.handle == Run(events)[Lower(e.name)]
    ensures AllReturn(events + [e])
  {
    var longer := events + [e];
    forall i | 0 <= i < |longer| && longer[i].Open?
      ensures Returns(longer, i)
    {
      if i < |events| {
        assert Returns(events, i);
        EarlierKept(events, e, i);
      } else {
        RunSnoc(events, e);
        assert longer[..i + 1] == longer && |Lower(e.name)| == |e.name|;
      }
    }
  }

  /** An Open that finds its name registered has to return what is registered, any other a new handle. */
  lemma HistorySnoc<H>(events: seq<Event<H>>, e: Event<H>)
    requires IsHistory(events) && (e.Open? ==> e.name != "")
    requires e.Open? && Lower(e.name) in Run(events) ==> e.handle == Run(events)[Lower(e.name)]
    requires e.Open? && Lower(e.name) !in Run(events) ==> NewTo(events, e.handle)
    ensures IsHistory(events + [e]) && Run(events + [e]) == Step(Run(events), e)
  {
    RunSnoc(events, e);
    AllReturnSnoc(events, e);
    var longer := events + [e];
    forall j: nat | Creates(longer, j)
      ensures NewTo(longer[..j], longer[j].handle)
    {
      if j < |events| {
        EarlierKept(events, e, j);
        assert longer[..j] == events[..j];
      } else {
        assert longer[..j] == events;
      }
    }
  }

  // ---- what every history says ---------------------------------------------------------------

  /** Every registered handle was created by some Open of its name, after the last event that closed the name. */
  lemma {:induction false} RegisteredByOpen<H>(events: seq<Event<H>>, storeName: string) returns (i: nat)
    requires storeName in Run(events)
    ensures Creates(events, i) && Lower(events[i].name) == storeName && events[i].handle == Run(events)[storeName]
    ensures forall j :: i < j < |events| ==> !Closes(events[j], storeName)
    decreases |events|
  {
    var n := |events| - 1;
    var front, e := events[..n], events[n];
    assert events == front + [e];
    if storeName in Run(front) {
      i := RegisteredByOpen(front, storeName);
      EarlierKept(front, e, i);
      assert forall j :: i < j < n ==> events[j] == front[j];
    } else {
      i := n;
    }
  }

  /** A registered name stays registered, with its handle, until an event closes it. */
  lemma {:induction false} KeptUntilClosed<H>(events: seq<Event<H>>, storeName: string, early: nat, late: nat)
    requires early <= late <= |events| && storeName in Run(events[..early])
    requires forall j :: early <= j < late ==> !Closes(events[j], storeName)
    ensures storeName in Run(events[..late]) && Run(events[..late])[storeName] == Run(events[..early])[storeName]
    decreases late
  {
    if early < late {
      KeptUntilClosed(events, storeName, early, late - 1);
      assert events[..late][..late - 1] == events[..late - 1];
    }
  }

  /** Two Opens of names equal up to case return the same handle exactly when nothing closed that name in between. */
  lemma SameHandleUntilClosed<H>(events: seq<Event<H>>, i: nat, k: nat)
    requires IsHistory(events)
    requires i < k < |events| && events[i].Open? && events[k].Open? && EqualFold(events[i].name, events[k].name)
    ensures events[i].handle == events[k].handle <==>
            forall j :: i < j < k ==> !Closes(events[j], Lower(events[i].name))
  {
    var name := Lower(events[i].name);
    assert Returns(events, i) && Returns(events, k);
    if c :| i < c < k && Closes(events[c], name) {
      NewHandleAfterClose(events, name, i, c, k + 1);
    } else {
      SameHandleMeanwhile(events, i, k);
    }
  }

  lemma SameHandleMeanwhile<H>(events: seq<Event<H>>, i: nat, k: nat)
    requires i < k < |events| && events[i].Open? && events[k].Open? && EqualFold(events[i].name, events[k].name)
    requires Returns(events, i) && Returns(events, k)
    requires forall j :: i < j < k ==> !Closes(events[j], Lower(events[i].name))
    ensures events[i].handle == events[k].handle
  {
    KeptUntilClosed(events, Lower(events[i].name), i + 1, k + 1);
  }

  /** What is registered after a closing event was created after it, so it is no handle returned before. */
  lemma NewHandleAfterClose<H>(events: seq<Event<H>>, name: string, i: nat, closed: nat, late: nat)
    requires IsHistory(events) && i < closed < late <= |events| && events[i].Open? && Closes(events[closed], name)
    requires name in Run(events[..late])
    ensures Run(events[..late])[name] != events[i].handle
  {
    var past := events[..late];
    var b := RegisteredByOpen(past, name);
    assert past[closed] == events[closed];
    assert past[..b] == events[..b] && Creates(events, b);
    assert events[..b][i] == events[i];
  }

  /** Every registered name is its own lower-case form. */
  lemma {:induction false} NamesAreLowerCase<H>(events: seq<Event<H>>, storeName: string)
    requires storeName in Run(events)
    ensures Lower(storeName) == storeName && storeName != ""
    decreases |events|
  {
    var front, e := events[..|events| - 1], events[|events| - 1];
    if storeName in Run(front) {
      NamesAreLowerCase(front, storeName);
    } else {
      LowerIdempotent(e.name);
      assert |Lower(e.name)| == |e.name|;
    }
  }
}
