/** The idempotency store as the service runs it, row by row and commit by commit. */
module Idempotency {
  import opened Wrappers
  import opened EmissionRecords

  class EmissionStore {
    var markers: map<Request, Marker>
    var archive: map<DocKey, string>

    function Contents(): Store
      reads this
    {
      Store(markers, archive)
    }

    constructor ()
      ensures Contents() == Store(map[], map[])
    {
      markers, archive := map[], map[];
    }

    /** Inserts the marker; the unique constraint rejects a second one. */
    method Claim(request: Request) returns (claimed: bool)
      modifies this
      ensures claimed == (request !in old(markers))
      ensures Contents() == EmissionRecords.Claim(old(Contents()), request)
    {
      claimed := request !in markers;
      if claimed {
        markers := markers[request := Running];
      }
    }

    method CloseFailed(request: Request, fault: Fault)
      modifies this
      ensures Contents() == EmissionRecords.CloseFailed(old(Contents()), request, fault)
    {
      if fault.DataFault? {
        markers := markers - {request};
      } else {
        markers := markers[request := Failed(Truncated(fault.message))];
      }
    }

    /** Looks each document up among the committed rows, queues the missing ones, commits once. */
    method Archive(customer: int, documents: seq<Document>) returns (ok: bool)
      modifies this
      ensures match EmissionRecords.Archive(old(Contents()), customer, documents)
              case Some(after) => ok && Contents() == after
              case None => !ok && Contents() == old(Contents())
    {
      var pending: seq<Document> := [];
      for i := 0 to |documents|
        invariant pending == Missing(archive, customer, documents[..i])
        invariant Contents() == old(Contents())
      {
        assert documents[..i + 1][..i] == documents[..i];
        if KeyOf(customer, documents[i]) !in archive {
          pending := pending + [documents[i]];
        }
      }
      assert documents[..|documents|] == documents;
      ok := KeysDistinct(customer, pending);
      if ok {
        archive := archive + Rows(customer, pending);
      }
    }

    /** Runs an emission whose outcome is `outcome`; with a key, at most once. */
    method Run(request: Request, outcome: Outcome) returns (answer: Answer, executed: bool)
      modifies this
      ensures (Contents(), answer, executed) == RunAlone(old(Contents()), request, outcome)
    {
      if request.key != "" {
        var claimed := Claim(request);
        if !claimed {
          return Replayed(Replay(Contents(), request)), false;
        }
      }
      if outcome.Raised? {
        if request.key != "" {
          CloseFailed(request, outcome.fault);
        }
        return Broke(outcome.fault), true;
      }
      var ok := Archive(request.customer, outcome.response.documents);
      if !ok {
        return Broke(DUPLICATE_ROWS), true;
      }
      if request.key != "" {
        markers := markers[request := Done(outcome.response)];
      }
      return Answered(outcome.response), true;
    }
  }
}
