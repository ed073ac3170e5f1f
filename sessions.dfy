/**
  Progress tracking per upload: the event record, the per-session queue, the
  process-wide registry from session id to queue, and the subscriber that
  re-emits queued events until the completion event.
*/
module Sessions {
  import opened Wrappers

  /** The `progress_data` record: how many documents, which one (1-based), finished or not. */
  datatype ProgressEvent = ProgressEvent(totalFiles: nat, currentIndex: nat, done: bool)

  /** A `queue.Queue` of progress events, first in first out. */
  class ProgressQueue {
    var items: seq<ProgressEvent>

    constructor ()
      ensures items == []
    {
      items := [];
    }

    /** `put`: append at the back. */
    method Put(e: ProgressEvent)
      modifies this
      ensures items == old(items) + [e]
    {
      items := items + [e];
    }

    /**
      `get(timeout=5)`: the front event, or `None` when nothing arrives in time.
      Nothing runs beside the subscriber here, so "nothing in time" means the
      queue is empty.
    */
    method Get() returns (r: Option<ProgressEvent>)
      modifies this
      ensures old(items) == [] ==> r == None && items == []
      ensures old(items) != [] ==> r == Some(old(items)[0]) && items == old(items)[1..]
    {
      if items == [] {
        r := None;
      } else {
        r := Some(items[0]);
        items := items[1..];
      }
    }

    /**
      The subscriber's loop: take events off the queue and emit each one,
      stopping after a completion event or when the queue runs dry.
    */
    method Drain() returns (stream: seq<ProgressEvent>)
      modifies this
      ensures stream == UntilDone(old(items)) && old(items) == stream + items
    {
      stream := [];
      while true
        invariant old(items) == stream + items
        invariant UntilDone(old(items)) == stream + UntilDone(items)
        decreases |items|
      {
        ghost var before := items;
        var update := Get();
        if update.None? {
          break;
        }
        var e := update.value;
        assert before == [e] + items;
        assert stream + before == (stream + [e]) + items;
        stream := stream + [e];
        if e.done {
          break;
        }
      }
    }
  }

  /** `progress_queues`: one queue per session id, each session with a queue of its own. */
  class Registry {
    var queues: map<string, ProgressQueue>

    /** No two sessions share a queue: every queue is created fresh for its session. */
    ghost predicate Valid()
      reads this
    {
      forall s, t :: s in queues && t in queues && s != t ==> queues[s] != queues[t]
    }

    constructor ()
      ensures Valid() && queues == map[]
    {
      queues := map[];
    }

    /**
      The lines that guard both the upload and the progress stream: when the
      session has no queue yet, give it a fresh empty one; return its queue.
    */
    method Ensure(sessionId: string) returns (q: ProgressQueue)
      requires Valid()
      modifies this
      ensures Valid()
      ensures sessionId in queues && q == queues[sessionId]
      ensures sessionId in old(queues) ==> queues == old(queues)
      ensures sessionId !in old(queues) ==> fresh(q) && q.items == [] && queues == old(queues)[sessionId := q]
    {
      if sessionId !in queues {
        var created := new ProgressQueue();
        queues := queues[sessionId := created];
      }
      q := queues[sessionId];
    }

    /** `progress_queues.pop(session_id, None)`: forget the session, if it is there. */
    method Remove(sessionId: string)
      requires Valid()
      modifies this
      ensures Valid()
      ensures queues == old(queues) - {sessionId}
    {
      queues := queues - {sessionId};
    }
  }

  /**
    What a subscriber re-emits from a run of queued events: every event up to
    and including the first completion event, or all of them when none is.
  */
  function UntilDone(events: seq<ProgressEvent>): seq<ProgressEvent> {
    if events == [] then []
    else if events[0].done then [events[0]]
    else [events[0]] + UntilDone(events[1..])
  }

  /**
    What the subscriber emits is a prefix of the queued events, no event
    before the last of it is a completion event, and it stops short of the
    queued events only right after a completion event.
  */
  lemma {:induction false} UntilDonePrefix(events: seq<ProgressEvent>)
    ensures |UntilDone(events)| <= |events| && UntilDone(events) == events[..|UntilDone(events)|]
    ensures forall k :: 0 <= k < |UntilDone(events)| - 1 ==> !events[k].done
    ensures |UntilDone(events)| < |events| ==> events[|UntilDone(events)| - 1].done
    ensures |UntilDone(events)| == |events| ==> forall k :: 0 <= k < |events| - 1 ==> !events[k].done
  {
    if events != [] && !events[0].done {
      UntilDonePrefix(events[1..]);
      assert forall k :: 0 < k < |events| ==> events[k] == events[1..][k - 1];
    }
  }

  /** A run of events without a completion event, then one: the subscriber emits all of it and nothing after. */
  lemma {:induction false} UntilDoneStops(run: seq<ProgressEvent>, last: ProgressEvent, later: seq<ProgressEvent>)
    requires forall k :: 0 <= k < |run| ==> !run[k].done
    requires last.done
    ensures UntilDone(run + [last] + later) == run + [last]
    decreases |run|
  {
    if run == [] {
      assert (run + [last] + later)[0] == last;
    } else {
      UntilDoneStops(run[1..], last, later);
      assert (run + [last] + later)[1..] == run[1..] + [last] + later;
      assert run + [last] == [run[0]] + (run[1..] + [last]);
    }
  }

  /**
    The progress stream: make sure the session has a queue, then take events
    off it and emit each one, stopping after a completion event or when the
    queue runs dry (the timeout). The events not taken stay queued.
  */
  method Generate(registry: Registry, sessionId: string) returns (stream: seq<ProgressEvent>)
    requires registry.Valid()
    modifies registry, registry.queues.Values
    ensures registry.Valid()
    ensures sessionId in registry.queues
    ensures sessionId in old(registry.queues) ==> registry.queues == old(registry.queues)
    ensures sessionId !in old(registry.queues) ==>
      registry.queues == old(registry.queues)[sessionId := registry.queues[sessionId]]
    ensures var pending := if sessionId in old(registry.queues) then old(registry.queues[sessionId].items) else [];
      stream == UntilDone(pending) && pending == stream + registry.queues[sessionId].items
    ensures forall s :: s in old(registry.queues) && s != sessionId ==>
      registry.queues[s].items == old(registry.queues[s].items)
  {
    var q := registry.Ensure(sessionId);
    assert forall s :: s in registry.queues && s != sessionId ==> registry.queues[s] != q;
    stream := q.Drain();
  }
}
