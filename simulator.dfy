/**
 * The part of `GPSTrackingSimulator` (`simulator.py`) that holds state beyond
 * the protocol: the batch accumulator and `stop`. The simulated position is
 * a floating-point walk; the model takes the current fix as a parameter.
 */
module Simulator {

  import opened Wrappers
  import opened Messages
  import opened MessageBuilders
  import opened Protocol
  import Constants

  /** The batch type `send_batch_location` is called with by default: a normal upload. */
  const NORMAL_BATCH: int := 1

  /** The tuple `_handle_batch_reporting` appends: the seven position fields and the extra items. */
  function CurrentTuple(fix: LocationFix, additionalInfo: seq<(int, InfoValue)>): LocationTuple
  {
    LocationTuple(8, fix.(additionalInfo := additionalInfo))
  }

  /** The batches one after another. */
  function Concat(batches: seq<seq<LocationTuple>>): seq<LocationTuple>
  {
    if batches == [] then [] else Concat(batches[..|batches| - 1]) + batches[|batches| - 1]
  }

  class GPSTrackingSimulator {
    const protocol: JT808Protocol
    const batchSize: int
    var running: bool
    /** Counts every tuple ever added; never reset. */
    var batchCount: int
    /** The tuples waiting for the next batch. */
    var batchLocations: seq<LocationTuple>
    /** Every tuple added, in order. */
    ghost var reported: seq<LocationTuple>
    /** Every batch handed to the protocol whose sending did not raise, in order. */
    ghost var batches: seq<seq<LocationTuple>>

    /** Nothing is lost or reordered: the batches handed over, then the pending tuples, are exactly the tuples added. */
    ghost predicate Valid()
      reads this
    {
      Concat(batches) + batchLocations == reported && batchCount == |reported|
    }

    /** `__init__`: not running, nothing pending. */
    constructor(deviceId: string, batchSize: int)
      ensures Valid() && fresh(protocol)
      ensures protocol.deviceId == deviceId && protocol.State() == ProtocolState(false, false, 0, None, [], [], [], [])
      ensures this.batchSize == batchSize && !running && batchCount == 0 && batchLocations == [] && batches == []
    {
      protocol := new JT808Protocol(deviceId);
      this.batchSize := batchSize;
      running := false;
      batchCount := 0;
      batchLocations := [];
      reported := [];
      batches := [];
    }

    /**
     * `_handle_batch_reporting`: the current tuple is appended and counted;
     * once `batch_size` tuples are pending they are sent as one batch and the
     * list is emptied. When `send_batch_location` raises, the exception
     * leaves the method before the list is emptied (returned here as `raised`).
     */
    method HandleBatchReporting(fix: LocationFix, additionalInfo: seq<(int, InfoValue)>, timestamp: string, fallback: string)
      returns (raised: Option<PackError>)
      requires Valid() && ValidFallback(fallback)
      modifies this, protocol
      ensures Valid()
      ensures batchCount == old(batchCount) + 1
      ensures reported == old(reported) + [CurrentTuple(fix, additionalInfo)]
      ensures var pending := old(batchLocations) + [CurrentTuple(fix, additionalInfo)];
        && (|pending| < batchSize ==>
              raised.None? && batchLocations == pending && batches == old(batches)
              && protocol.State() == old(protocol.State()))
        && (|pending| >= batchSize ==>
              var send := BatchSend(protocol.deviceId, pending, NORMAL_BATCH, timestamp, fallback, old(protocol.State()));
              && protocol.State() == send.1
              && (send.0.Ok? ==> raised.None? && batchLocations == [] && batches == old(batches) + [pending])
              && (send.0.Err? ==> raised == Some(send.0.error) && batchLocations == pending && batches == old(batches)))
      ensures batchSize >= 1 && |old(batchLocations)| < batchSize ==>
        && (raised.None? ==> |batchLocations| < batchSize)
        && (raised.Some? ==> |batchLocations| == batchSize)
        && forall i :: |old(batches)| <= i < |batches| ==> |batches[i]| == batchSize
      ensures running == old(running)
    {
      var t := CurrentTuple(fix, additionalInfo);
      batchLocations := batchLocations + [t];
      reported := reported + [t];
      batchCount := batchCount + 1;
      raised := None;
      if |batchLocations| >= batchSize {
        raised := SendPending(timestamp, fallback);
      }
    }

    /** The send of `_handle_batch_reporting`: the pending tuples go out as one batch, then the list is emptied unless the send raised. */
    method SendPending(timestamp: string, fallback: string) returns (raised: Option<PackError>)
      requires Valid() && ValidFallback(fallback)
      modifies this, protocol
      ensures Valid()
      ensures batchCount == old(batchCount) && reported == old(reported) && running == old(running)
      ensures raised.None? ==> batchLocations == [] && batches == old(batches) + [old(batchLocations)]
      ensures raised.Some? ==> batchLocations == old(batchLocations) && batches == old(batches)
      ensures var send := BatchSend(protocol.deviceId, old(batchLocations), NORMAL_BATCH, timestamp, fallback, old(protocol.State()));
        && protocol.State() == send.1
        && (send.0.Ok? <==> raised.None?)
        && (send.0.Err? ==> raised == Some(send.0.error))
    {
      var r := protocol.SendBatchLocation(batchLocations, NORMAL_BATCH, timestamp, fallback);
      if r.Err? {
        raised := Some(r.error);
      } else {
        ConcatAppend(batches, batchLocations);
        batches := batches + [batchLocations];
        batchLocations := [];
        raised := None;
      }
    }

    /**
     * `stop`: nothing when not running; otherwise the simulator stops, a
     * logout is sent if the protocol is authenticated, and the protocol is
     * disconnected.
     */
    method Stop(fallback: string)
      requires Valid() && ValidFallback(fallback)
      modifies this, protocol
      ensures !running
      ensures batchCount == old(batchCount) && batchLocations == old(batchLocations)
      ensures Valid() && reported == old(reported) && batches == old(batches)
      ensures !old(running) ==> protocol.State() == old(protocol.State())
      ensures old(running) ==>
        var st := old(protocol.State());
        var serial := if st.authenticated then NextSerial(st.msgSerialNo) else st.msgSerialNo;
        var logout := Plain(Constants.TERMINAL_LOGOUT, protocol.deviceId, [], serial);
        protocol.State() == st.(
          connected := false,
          authenticated := st.authenticated && !st.connected,
          msgSerialNo := serial,
          sent := st.sent + (if st.authenticated then Transmitted(st.connected, logout, fallback) else []))
    {
      if !running {
        return;
      }
      running := false;
      if protocol.authenticated {
        var _ := protocol.Logout(fallback);
      }
      protocol.Disconnect();
    }
  }

  /** A batch handed over lands after every earlier one. */
  lemma {:induction false} ConcatAppend(batches: seq<seq<LocationTuple>>, b: seq<LocationTuple>)
    ensures Concat(batches + [b]) == Concat(batches) + b
    ensures |Concat(batches + [b])| == |Concat(batches)| + |b|
  {
    assert (batches + [b])[..|batches|] == batches;
  }
}
