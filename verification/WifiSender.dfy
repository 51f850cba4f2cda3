/**
  The packet sender of the wifi example: starting schedules a send event, each send event schedules the next
  one until enough packets were sent, stopping cancels the pending one.
*/
module WifiSender {

  datatype Op = Start | Stop | Fire

  /** Packets since the last start, and whether a send event is pending, after `ops`. */
  function Sent(from: (nat, bool), packets: nat, ops: seq<Op>): (nat, bool) {
    if ops == [] then from
    else
      var (n, pending) := Sent(from, packets, ops[..|ops| - 1]);
      match ops[|ops| - 1]
      case Start => (0, true)
      case Stop => (n, false)
      case Fire => if pending then (n + 1, n + 1 < packets) else (n, false)
  }

  /** The scheduled events of the sender, by number; an expired or cancelled event is gone. */
  class Sender {
    const packets: nat
    var count: nat
    var queue: set<nat>
    var nextId: nat
    var sendEvent: nat

    /** Packets sent since the last start, and whether a stop has come since. */
    ghost var sent: nat
    ghost var stopped: bool

    /** The attribute that sets the number of packets admits no number below 1. */
    constructor (packets: nat)
      requires packets >= 1
      ensures Valid() && this.packets == packets && sent == 0 && stopped
    {
      this.packets := packets;
      count, queue, nextId, sendEvent, sent, stopped := 0, {}, 1, 0, 0, true;
    }

    ghost predicate Valid()
      reads this
    {
      && packets >= 1
      && queue <= {sendEvent} && sendEvent < nextId
      && count == sent <= packets
      && (queue != {} ==> !stopped && sent < packets)
      && (!stopped && queue == {} ==> sent == packets)
    }

    method Cancel()
      modifies this`queue
      ensures queue == old(queue) - {sendEvent}
    {
      queue := queue - {sendEvent};
    }

    method Schedule()
      modifies this`queue, this`nextId, this`sendEvent
      ensures sendEvent == old(nextId) && nextId == old(nextId) + 1 && queue == old(queue) + {sendEvent}
    {
      sendEvent := nextId;
      queue := queue + {nextId};
      nextId := nextId + 1;
    }

    method StartApplication()
      requires Valid()
      modifies this
      ensures Valid() && queue == {sendEvent} && sent == 0 && !stopped
    {
      count := 0;
      Cancel();
      Schedule();
      sent, stopped := 0, false;
    }

    method StopApplication()
      requires Valid()
      modifies this
      ensures Valid() && queue == {} && sent == old(sent) && stopped
    {
      Cancel();
      stopped := true;
    }

    /** The simulator takes the pending event and runs it. */
    method SendPacket(event: nat)
      requires Valid() && event in queue
      modifies this
      ensures Valid() && sent == old(sent) + 1 && !stopped
      ensures queue == if sent < packets then {sendEvent} else {}
    {
      queue := queue - {event};
      sent := sent + 1;
      count := count + 1;
      if count < packets {
        Schedule();
      }
    }

    /** Any sequence of starts, stops and firings; a firing needs a pending event. */
    method Drive(ops: seq<Op>)
      requires Valid()
      modifies this
      ensures Valid()
      ensures sent == Sent(old((sent, queue != {})), packets, ops).0
      ensures (queue != {}) == Sent(old((sent, queue != {})), packets, ops).1
    {
      for i := 0 to |ops|
        invariant Valid() && (sent, queue != {}) == Sent(old((sent, queue != {})), packets, ops[..i])
      {
        assert ops[..i + 1][..i] == ops[..i];
        match ops[i] {
          case Start => StartApplication();
          case Stop => StopApplication();
          case Fire =>
            if event :| event in queue {
              SendPacket(event);
            }
        }
      }
      assert ops[..|ops|] == ops;
    }
  }

  /** No sequence of events makes the sender send more than it is configured for. */
  lemma {:induction false} SentBound(packets: nat, ops: seq<Op>)
    requires packets >= 1
    ensures var (n, pending) := Sent((0, false), packets, ops); n <= packets && (pending ==> n < packets)
  {
    if ops != [] { SentBound(packets, ops[..|ops| - 1]); }
  }

  function Fires(k: nat): seq<Op> { seq(k, _ => Fire) }

  /** After a start that is followed by neither stop nor start, all configured packets are sent, and then no more. */
  lemma {:induction false} RunsToTarget(packets: nat, before: seq<Op>, k: nat)
    requires packets >= 1
    ensures Sent((0, false), packets, before + [Start] + Fires(k)) == (if k < packets then k else packets, k < packets)
  {
    var ops := before + [Start] + Fires(k);
    if k == 0 {
      assert ops[..|ops| - 1] == before;
    } else {
      assert ops[..|ops| - 1] == before + [Start] + Fires(k - 1);
      RunsToTarget(packets, before, k - 1);
    }
  }

  /** A stop silences the sender until the next start. */
  lemma {:induction false} NothingAfterStop(packets: nat, before: seq<Op>, after: seq<Op>)
    requires Start !in after
    ensures Sent((0, false), packets, before + [Stop] + after) == (Sent((0, false), packets, before).0, false)
  {
    var ops := before + [Stop] + after;
    if after == [] {
      assert ops == before + [Stop] && ops[..|ops| - 1] == before;
    } else {
      var n := |after| - 1;
      assert ops[..|ops| - 1] == before + [Stop] + after[..n] && after[n] in after;
      NothingAfterStop(packets, before, after[..n]);
    }
  }
}
