/** Audit records: one per connection, emitted by a guard when the connection's task ends. */
module CallRecords {
  import opened Bytes
  import opened WireTypes
  import opened CallErrors
  import opened TokenPolicy

  datatype Direction = Outbound | Inbound

  datatype AuthOutcome = Allowed(rule: AuthRule) | Denied(reason: string) | NotReached

  datatype CallRecord = CallRecord(
    task: Option<TaskId>, direction: Direction, peer: NodeId, authorization: AuthOutcome, outcome: Outcome)

  /** The audit outcome of a finished call. */
  function ResultOutcome(result: Result<Outcome, CallError>): Outcome {
    match result
    case Ok(o) => o
    case Err(e) => OutcomeFromCallError(e)
  }

  class RecordSink {
    var records: seq<CallRecord>

    constructor ()
      ensures records == []
    {
      records := [];
    }

    method Emit(record: CallRecord)
      modifies this
      ensures records == old(records) + [record]
    {
      records := records + [record];
    }
  }

  class CallRecordGuard {
    const sink: RecordSink
    const direction: Direction
    const peer: NodeId
    var task: Option<TaskId>
    var authorization: AuthOutcome
    var outcome: Outcome
    var emitted: bool

    constructor (sink: RecordSink, direction: Direction, peer: NodeId, authorization: AuthOutcome)
      ensures this.sink == sink && this.direction == direction && this.peer == peer
      ensures task == None && this.authorization == authorization && outcome == PeerLost && !emitted
    {
      this.sink := sink;
      this.direction := direction;
      this.peer := peer;
      this.authorization := authorization;
      task := None;
      outcome := PeerLost;
      emitted := false;
    }

    /** What the guard would emit now. */
    function Record(): CallRecord
      reads this
    {
      CallRecord(task, direction, peer, authorization, outcome)
    }

    method SetTask(t: TaskId)
      modifies this`task
      ensures task == Some(t)
    {
      task := Some(t);
    }

    method ClearTask()
      modifies this`task
      ensures task == None
    {
      task := None;
    }

    method SetAuthorization(a: AuthOutcome)
      modifies this`authorization
      ensures authorization == a
    {
      authorization := a;
    }

    method SetOutcome(o: Outcome)
      modifies this`outcome
      ensures outcome == o
    {
      outcome := o;
    }

    method ObserveResult(result: Result<Outcome, CallError>)
      modifies this`outcome
      ensures outcome == ResultOutcome(result)
    {
      match result {
        case Ok(o) => SetOutcome(o);
        case Err(e) => SetOutcome(OutcomeFromCallError(e));
      }
    }

    method EmitNow()
      modifies this`emitted, sink
      ensures emitted
      ensures sink.records == if old(emitted) then old(sink.records) else old(sink.records) + [old(Record())]
    {
      if emitted {
        return;
      }
      emitted := true;
      sink.Emit(Record());
    }

    /** The end of the guard's scope. */
    method Drop()
      modifies this`emitted, sink
      ensures emitted
      ensures sink.records == if old(emitted) then old(sink.records) else old(sink.records) + [old(Record())]
    {
      EmitNow();
    }
  }
}
