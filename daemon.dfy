/**
 * The daemon itself: the shared id table that the workers update in place,
 * the worker's handling of one queued request, and the main receive loop
 * that queues datagrams until the die message arrives. Requests are handled
 * one at a time, in the order they were queued.
 */
module Daemon {

  import opened Wrappers
  import opened Message
  import opened Counter

  /** The datagram that shuts the server down. */
  const DieMessage: string := "Dear server please die"

  /** Index of the first die message in `ds`, or `|ds|` when there is none. */
  function DiePosition(ds: seq<string>): (k: nat)
    ensures k <= |ds| && DieMessage !in ds[..k]
    ensures k < |ds| ==> ds[k] == DieMessage
    decreases |ds|
  {
    if ds == [] || ds[0] == DieMessage then 0
    else
      var k := 1 + DiePosition(ds[1..]);
      assert ds[..k] == [ds[0]] + ds[1..][..k - 1];
      k
  }

  /** The module-level `ids_dict` and the work done on it. */
  class RequestsProcessor {
    var ids: Table

    ghost predicate Valid()
      reads this
    {
      ValidTable(ids)
    }

    constructor ()
      ensures Valid() && ids == map[]
    {
      ids := map[];
    }

    /**
     * One pass of the worker loop: parse the request, update the record of
     * its id in place and produce the reply or the error.
     */
    method Process(msg: string) returns (r: Outcome)
      requires Valid()
      modifies this
      ensures Valid()
      ensures StepResult(ids, r) == Step(old(ids), msg)
    {
      var parsed := Parse(msg);
      if parsed.Err? {
        return Err(parsed.error);
      }
      var req := parsed.value;
      if req.id in ids {
        ids := ids[req.id := ids[req.id].(count := ids[req.id].count + 1)];
        if ids[req.id].name != req.name {
          return Err(NameMismatch);
        }
      } else {
        ids := ids[req.id := Entry(req.name, 1)];
      }
      r := Ok(ReplyFields(req.id, ids[req.id].name, ids[req.id].count));
    }

    /** The workers draining the queue, one request after another. */
    method Serve(queue: seq<string>) returns (outcomes: seq<Outcome>)
      requires Valid()
      modifies this
      ensures Valid()
      ensures ids == Run(old(ids), queue).table
      ensures outcomes == Run(old(ids), queue).outcomes
    {
      outcomes := [];
      var i := 0;
      while i < |queue|
        invariant 0 <= i <= |queue| && Valid()
        invariant Run(old(ids), queue).table == Run(ids, queue[i..]).table
        invariant Run(old(ids), queue).outcomes == outcomes + Run(ids, queue[i..]).outcomes
      {
        assert queue[i..][1..] == queue[i + 1..];
        var r := Process(queue[i]);
        outcomes := outcomes + [r];
        i := i + 1;
      }
    }
  }

  /**
   * The main loop: every datagram before the first die message is queued
   * once, in arrival order; the die message stops the loop and is never
   * queued. The loop also ends when no datagram is left.
   */
  method ReceiveLoop(datagrams: seq<string>) returns (queued: seq<string>, stopped: bool)
    ensures queued == datagrams[..DiePosition(datagrams)]
    ensures DieMessage !in queued
    ensures stopped <==> DieMessage in datagrams
  {
    queued := [];
    stopped := false;
    var i := 0;
    while i < |datagrams|
      invariant 0 <= i <= |datagrams|
      invariant queued == datagrams[..i] && DieMessage !in queued
    {
      if datagrams[i] == DieMessage {
        stopped := true;
        break;
      }
      queued := queued + [datagrams[i]];
      i := i + 1;
    }
  }

  /**
   * The whole server on a finite stream of datagrams, starting from an empty
   * table: the outcome of every queued request, and the final table, whose
   * count for each id is the number of well-formed requests with that id.
   */
  method RunDaemon(datagrams: seq<string>) returns (outcomes: seq<Outcome>, table: Table)
    ensures outcomes == Run(map[], datagrams[..DiePosition(datagrams)]).outcomes
    ensures table == Run(map[], datagrams[..DiePosition(datagrams)]).table
    ensures forall i :: Count(table, i) == Requests(datagrams[..DiePosition(datagrams)], i)
    ensures forall i :: i in table ==> table[i].count >= 1
  {
    var processor := new RequestsProcessor();
    var queued, _ := ReceiveLoop(datagrams);
    outcomes := processor.Serve(queued);
    table := processor.ids;
    forall i ensures Count(table, i) == Requests(queued, i) {
      CountsTrackRequests(queued, i);
    }
  }
}
