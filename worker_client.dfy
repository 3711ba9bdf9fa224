/** The page side of the worker protocol: every call gets a fresh id and a
    pending entry, and each entry is settled by the matching response, by a
    timeout, by disposal or by a worker error, whichever comes first.
    Settling is reported as the list of promises each event settles. */
module WorkerClient {
  import opened Common
  import opened Strings
  import Git

  const REQUEST_TIMEOUT_MS: nat := 60000
  const DISPOSED := "Worker disposed"

  /** A request still waiting for its answer, with the request's type. */
  datatype PendingCall = PendingCall(id: int, kind: string)

  /** What the worker posts back. `Other` is a message object of an
      unexpected type; `NotAnObject` is anything that is not an object. */
  datatype Message =
    | Ok(id: int, data: Git.Payload)
    | Error(id: int, error: string)
    | Progress(id: int, message: string)
    | Other(id: int, kind: string)
    | NotAnObject

  /** A promise being resolved or rejected. */
  datatype Settlement = Resolved(id: int, data: Git.Payload) | Rejected(id: int, error: string)

  /** The fields of an `ErrorEvent` that the rejection message uses. */
  datatype ErrorEvent = ErrorEvent(message: string, kind: string, filename: Option<string>,
                                   lineno: Option<nat>, colno: Option<nat>)

  function Ids(pending: seq<PendingCall>): set<int> {
    set p | p in pending :: p.id
  }

  /** Every id in the table was handed out before `next`. */
  predicate EntriesBelow(pending: seq<PendingCall>, next: int) {
    forall p :: p in pending ==> 1 <= p.id < next
  }

  predicate IdsBelow(ids: set<int>, next: int) {
    forall id :: id in ids ==> 1 <= id < next
  }

  /** The pending table in insertion order: ids only grow. */
  predicate Increasing(pending: seq<PendingCall>) {
    forall i, j :: 0 <= i < j < |pending| ==> pending[i].id < pending[j].id
  }

  /** `pending.get(id)`. */
  function Find(pending: seq<PendingCall>, id: int): (r: Option<PendingCall>)
    ensures r.Some? <==> id in Ids(pending)
    ensures r.Some? ==> r.value in pending && r.value.id == id
  {
    if pending == [] then None
    else
      var init := pending[..|pending| - 1];
      assert pending == init + [pending[|pending| - 1]];
      assert Ids(pending) == Ids(init) + {pending[|pending| - 1].id};
      if pending[|pending| - 1].id == id then Some(pending[|pending| - 1]) else Find(init, id)
  }

  /** `pending.delete(id)`: the other entries stay, in their order. */
  function Delete(pending: seq<PendingCall>, id: int): (r: seq<PendingCall>)
    ensures forall p :: p in r <==> p in pending && p.id != id
    ensures Ids(r) == Ids(pending) - {id}
  {
    if pending == [] then []
    else
      var init := pending[..|pending| - 1];
      var last := pending[|pending| - 1];
      assert pending == init + [last];
      if last.id == id then Delete(init, id) else Delete(init, id) + [last]
  }

  /** Deleting keeps the table in increasing order. */
  lemma {:induction false} DeleteIncreasing(pending: seq<PendingCall>, id: int)
    requires Increasing(pending)
    ensures Increasing(Delete(pending, id))
  {
    if pending != [] {
      var init := pending[..|pending| - 1];
      var last := pending[|pending| - 1];
      assert pending == init + [last];
      DeleteIncreasing(init, id);
      if last.id != id {
        var rest := Delete(init, id);
        forall p | p in rest ensures p.id < last.id {
          var k :| 0 <= k < |init| && init[k] == p;
          assert pending[k] == p;
        }
        AppendKeepsIncreasing(rest, last.id, last.kind);
      }
    }
  }

  /** The rejection message of a request that timed out; a request without
      a type is reported as 'unknown'. */
  function TimeoutMessage(kind: string): string {
    "Worker request timed out after " + NatToString(REQUEST_TIMEOUT_MS / 1000) + " seconds. Type: " +
    (if kind == "" then "unknown" else kind)
  }

  /** The rejection message of a worker error: the event's message, else its
      type, else 'unknown', then where it happened. */
  function WorkerErrorMessage(e: ErrorEvent): string {
    "Worker error: " + (if e.message != "" then e.message else if e.kind != "" then e.kind else "unknown") +
    " @ " + e.filename.GetOr("") + ":" + NatToString(e.lineno.GetOr(0)) + ":" + NatToString(e.colno.GetOr(0))
  }

  /** The settlement a non-progress response causes for its pending entry. */
  function Settle(msg: Message): (r: seq<Settlement>)
    requires msg.Ok? || msg.Error? || msg.Other?
    ensures |r| <= 1 && (r != [] ==> r[0].id == msg.id)
    ensures msg.Ok? ==> r == [Resolved(msg.id, msg.data)]
    ensures msg.Error? ==> r == [Rejected(msg.id, msg.error)]
    ensures msg.Other? ==> r == []
  {
    match msg
    case Ok(id, data) => [Resolved(id, data)]
    case Error(id, error) => [Rejected(id, error)]
    case Other(_, _) => []
  }

  function SettledIds(out: seq<Settlement>): set<int> {
    set s | s in out :: s.id
  }

  class GitWorkerClient {
    var idCounter: int
    var pending: seq<PendingCall>
    /** The ids whose promises have been settled. */
    ghost var settled: set<int>

    ghost predicate Valid()
      reads this
    {
      idCounter >= 1 && Increasing(pending) && EntriesBelow(pending, idCounter) &&
      Ids(pending) !! settled && IdsBelow(settled, idCounter)
    }

    constructor()
      ensures Valid() && idCounter == 1 && pending == [] && settled == {}
    {
      idCounter := 1;
      pending := [];
      settled := {};
    }

    /** `call(payload)`: takes the next id and registers the request; when
        posting throws, the entry is dropped again and the promise rejects
        with the thrown message. */
    method Call(kind: string, postError: Option<string>) returns (id: int, out: seq<Settlement>)
      requires Valid()
      modifies this
      ensures Valid()
      ensures id == old(idCounter) && idCounter == id + 1
      ensures forall p :: p in old(pending) ==> p.id < id
      ensures id !in old(settled)
      ensures postError.None? ==>
        pending == old(pending) + [PendingCall(id, kind)] && out == [] && settled == old(settled)
      ensures postError.Some? ==>
        pending == old(pending) && out == [Rejected(id, postError.value)] && settled == old(settled) + {id}
    {
      id := idCounter;
      idCounter := idCounter + 1;
      RegisterFresh(pending, settled, id, kind);
      pending := pending + [PendingCall(id, kind)];
      out := [];
      if postError.Some? {
        pending := Delete(pending, id);
        assert pending == old(pending) by {
          DeleteFresh(old(pending), id);
        }
        out := [Rejected(id, postError.value)];
        settled := settled + {id};
      }
    }

    /** `worker.onmessage`: progress is forwarded and settles nothing; any
        other response removes its own entry, if it is still pending, and
        settles it; a response for an unknown id is ignored. */
    method Receive(msg: Message) returns (forwarded: Option<string>, out: seq<Settlement>)
      requires Valid()
      modifies this
      ensures Valid() && idCounter == old(idCounter)
      ensures forwarded == if msg.Progress? then Some(msg.message) else None
      ensures msg.Progress? || msg.NotAnObject? ==>
        pending == old(pending) && out == [] && settled == old(settled)
      ensures (msg.Ok? || msg.Error? || msg.Other?) && msg.id in Ids(old(pending)) ==>
        pending == Delete(old(pending), msg.id) && out == Settle(msg)
      ensures (msg.Ok? || msg.Error? || msg.Other?) && msg.id !in Ids(old(pending)) ==>
        pending == old(pending) && out == [] && settled == old(settled)
      ensures SettledIds(out) <= Ids(old(pending)) && SettledIds(out) !! old(settled)
      ensures settled == old(settled) + SettledIds(out)
    {
      forwarded := None;
      out := [];
      if msg.NotAnObject? {
        return;
      }
      if msg.Progress? {
        forwarded := Some(msg.message);
        return;
      }
      var entry := Find(pending, msg.id);
      if entry.None? {
        return;
      }
      DeleteIncreasing(pending, msg.id);
      pending := Delete(pending, msg.id);
      out := Settle(msg);
      assert SettledIds(out) <= {msg.id};
      settled := settled + SettledIds(out);
    }

    /** The timer of request `id`: it rejects only a request still pending. */
    method Timeout(id: int) returns (out: seq<Settlement>)
      requires Valid()
      modifies this
      ensures Valid() && idCounter == old(idCounter)
      ensures id in Ids(old(pending)) ==>
        pending == Delete(old(pending), id) &&
        out == [Rejected(id, TimeoutMessage(Find(old(pending), id).value.kind))] &&
        settled == old(settled) + {id}
      ensures id !in Ids(old(pending)) ==> pending == old(pending) && out == [] && settled == old(settled)
    {
      out := [];
      var entry := Find(pending, id);
      if entry.Some? {
        DeleteIncreasing(pending, id);
        pending := Delete(pending, id);
        out := [Rejected(id, TimeoutMessage(entry.value.kind))];
        settled := settled + {id};
      }
    }

    /** `dispose()`: every pending request is rejected, in the order the
        requests were made, and the table is emptied. */
    method Dispose() returns (out: seq<Settlement>)
      requires Valid()
      modifies this
      ensures Valid() && idCounter == old(idCounter) && pending == []
      ensures |out| == |old(pending)|
      ensures forall i :: 0 <= i < |out| ==> out[i] == Rejected(old(pending)[i].id, DISPOSED)
      ensures settled == old(settled) + Ids(old(pending))
    {
      out := RejectAll(DISPOSED);
    }

    /** `worker.onerror`: every pending request is rejected with one message
        describing the event, and the table is emptied. */
    method WorkerError(e: ErrorEvent) returns (out: seq<Settlement>)
      requires Valid()
      modifies this
      ensures Valid() && idCounter == old(idCounter) && pending == []
      ensures |out| == |old(pending)|
      ensures forall i :: 0 <= i < |out| ==> out[i] == Rejected(old(pending)[i].id, WorkerErrorMessage(e))
      ensures settled == old(settled) + Ids(old(pending))
    {
      out := RejectAll(WorkerErrorMessage(e));
    }

    method RejectAll(error: string) returns (out: seq<Settlement>)
      requires Valid()
      modifies this
      ensures Valid() && idCounter == old(idCounter) && pending == []
      ensures |out| == |old(pending)|
      ensures forall i :: 0 <= i < |out| ==> out[i] == Rejected(old(pending)[i].id, error)
      ensures settled == old(settled) + Ids(old(pending))
    {
      out := [];
      for i := 0 to |pending|
        invariant |out| == i
        invariant forall k :: 0 <= k < i ==> out[k] == Rejected(pending[k].id, error)
      {
        out := out + [Rejected(pending[i].id, error)];
      }
      settled := settled + Ids(pending);
      pending := [];
    }
  }

  /** Removing an id that is not in the table leaves it as it was. */
  lemma {:induction false} DeleteFresh(pending: seq<PendingCall>, id: int)
    requires forall p :: p in pending ==> p.id < id
    ensures forall kind :: Delete(pending + [PendingCall(id, kind)], id) == pending
  {
    forall kind ensures Delete(pending + [PendingCall(id, kind)], id) == pending {
      var s := pending + [PendingCall(id, kind)];
      assert s[..|s| - 1] == pending;
      DeleteAbsent(pending, id);
    }
  }

  lemma {:induction false} DeleteAbsent(pending: seq<PendingCall>, id: int)
    requires id !in Ids(pending)
    ensures Delete(pending, id) == pending
  {
    if pending != [] {
      var init := pending[..|pending| - 1];
      assert pending == init + [pending[|pending| - 1]];
      assert Ids(pending) == Ids(init) + {pending[|pending| - 1].id};
      DeleteAbsent(init, id);
    }
  }

  /** A second response for an id that was already answered is ignored:
      once removed, the id is no longer pending. */
  lemma AnsweredOnce(pending: seq<PendingCall>, id: int)
    ensures Find(Delete(pending, id), id).None?
  {
  }

  /** Registering the next id keeps the table ordered and below the
      counter, and the id is neither pending nor settled yet. */
  lemma RegisterFresh(pending: seq<PendingCall>, settled: set<int>, id: int, kind: string)
    requires id >= 1 && Increasing(pending) && EntriesBelow(pending, id)
    requires Ids(pending) !! settled && IdsBelow(settled, id)
    ensures id !in Ids(pending) && id !in settled
    ensures Increasing(pending + [PendingCall(id, kind)])
    ensures EntriesBelow(pending + [PendingCall(id, kind)], id + 1) && IdsBelow(settled, id + 1)
    ensures IdsBelow(settled + {id}, id + 1)
    ensures Ids(pending + [PendingCall(id, kind)]) == Ids(pending) + {id}
    ensures Ids(pending + [PendingCall(id, kind)]) !! settled
  {
    AppendKeepsIncreasing(pending, id, kind);
    var s := pending + [PendingCall(id, kind)];
    assert forall p :: p in s <==> p in pending || p == PendingCall(id, kind);
  }

  /** Ids handed out by successive calls strictly increase, so the pending
      table stays in increasing order as calls are added. */
  lemma AppendKeepsIncreasing(pending: seq<PendingCall>, id: int, kind: string)
    requires Increasing(pending) && forall p :: p in pending ==> p.id < id
    ensures Increasing(pending + [PendingCall(id, kind)])
  {
    var s := pending + [PendingCall(id, kind)];
    forall i, j | 0 <= i < j < |s| ensures s[i].id < s[j].id {
      if j == |s| - 1 {
        assert s[i] in pending;
      }
    }
  }
}
