/** The queue of notification IDs that an acknowledgment object consumes, one per call. */
module AcknowledgmentQueue {
  import opened Outcomes
  import opened Issuance

  /** The IDs a send was attempted for, and those left. */
  datatype Queue = Queue(attempted: seq<string>, remaining: seq<string>) {
    /** One call: the first remaining ID leaves the queue before it is sent, and stays out if the send fails. */
    function Acknowledge(sendSucceeds: bool): (Queue, Option<Error>) {
      if remaining == [] then (this, Some(Other("ack list is empty")))
      else (Queue(attempted + [remaining[0]], remaining[1..]),
            if sendSucceeds then None else Some(Other("send acknowledge request")))
    }
  }

  /** The queue after a run of calls; each call comes with whether its send succeeds. */
  function AfterCalls(initial: seq<string>, sends: seq<bool>): Queue {
    if sends == [] then Queue([], initial)
    else AfterCalls(initial, sends[..|sends| - 1]).Acknowledge(sends[|sends| - 1]).0
  }

  /** Over any run, with sends failing or not, the IDs attempted followed by those remaining are the initial list: each
      position is attempted at most once and in order, one for every call while any is left, and none after that. */
  lemma {:induction false} AttemptedInOrder(initial: seq<string>, sends: seq<bool>)
    ensures var k := if |sends| <= |initial| then |sends| else |initial|;
            AfterCalls(initial, sends) == Queue(initial[..k], initial[k..])
    ensures AfterCalls(initial, sends).attempted + AfterCalls(initial, sends).remaining == initial
    decreases |sends|
  {
    if sends != [] {
      AttemptedInOrder(initial, sends[..|sends| - 1]);
    }
  }

  /** A call after n others succeeds exactly when an ID is left for it and its send succeeds; beyond the list it fails
      and sends nothing. */
  lemma CallSucceedsExactlyWhen(initial: seq<string>, sends: seq<bool>, sendSucceeds: bool)
    ensures var (after, error) := AfterCalls(initial, sends).Acknowledge(sendSucceeds);
            && (error.None? <==> |sends| < |initial| && sendSucceeds)
            && after.attempted == AfterCalls(initial, sends).attempted +
                                  (if |sends| < |initial| then [initial[|sends|]] else [])
  {
    AttemptedInOrder(initial, sends);
  }

  class Acknowledgment {
    var ackIDs: seq<string>
    const credentialAckEndpoint: string
    const issuerURI: string
    const authToken: Option<Token>
    ghost var attempted: seq<string>

    ghost function View(): Queue
      reads this
    {
      Queue(attempted, ackIDs)
    }

    constructor (ackIDs: seq<string>, endpoint: string, issuerURI: string, authToken: Option<Token>)
      ensures View() == Queue([], ackIDs)
      ensures credentialAckEndpoint == endpoint && this.issuerURI == issuerURI && this.authToken == authToken
    {
      this.ackIDs, credentialAckEndpoint, this.issuerURI, this.authToken := ackIDs, endpoint, issuerURI, authToken;
      attempted := [];
    }

    /** `sends` says for an ID whether the notification endpoint answers its request with 204. */
    method AcknowledgeIssuer(sends: string -> bool) returns (error: Option<Error>)
      modifies this
      ensures (View(), error) == old(View()).Acknowledge(old(ackIDs) != [] && sends(old(ackIDs)[0]))
    {
      if |ackIDs| == 0 {
        return Some(Other("ack list is empty"));
      }
      var ackID := ackIDs[0];
      ackIDs := ackIDs[1..];
      attempted := attempted + [ackID];
      if !sends(ackID) {
        return Some(Other("send acknowledge request"));
      }
      return None;
    }
  }
}
