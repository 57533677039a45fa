/** The `Api` object: the state the ingestion callback updates in place, the
    readiness flag, and the request handlers reading that state. */
module Server {
  import opened Archive
  import opened Timeline
  import opened Query

  /** How `start` ends: with the readiness flag raised, with the reader
      having failed (the error is caught and logged, and the service keeps
      answering "data not ready"), or with the process exiting on a second
      plan. */
  datatype StartOutcome = Ready | ReadFailed | Exited

  class Api {
    var ready: bool
    var model: Option<string>
    var modelHash: Option<string>
    var modelTime: int
    const field: array<Option<string>>
    const engines: array<seq<Bytes>>
    const host: Host

    /** The map held by this object, as a value. */
    ghost function Contents(): TimeMap
      reads this, field, engines
    {
      TimeMap(model, modelHash, modelTime, field[..], engines[..])
    }

    ghost predicate Valid()
      reads this, field, engines
    {
      field.Length == DaySlots && engines.Length == DaySlots && HashMatches(host, Contents())
    }

    constructor (host: Host)
      ensures Valid() && fresh(field) && fresh(engines)
      ensures this.host == host && !ready && Contents() == Empty()
    {
      this.host := host;
      ready := false;
      model, modelHash, modelTime := None, None, 0;
      field := new Option<string>[DaySlots](_ => None);
      engines := new seq<Bytes>[DaySlots](_ => []);
      new;
      assert field[..] == Empty().field;
      assert engines[..] == Empty().engines;
    }

    /** The reader callback for one record. `exit` is the `process.exit(1)`
        on a second plan, before which nothing is changed. */
    method OnRecord(r: Record) returns (exit: bool)
      requires Valid()
      modifies this`model, this`modelHash, this`modelTime, field, engines
      ensures Valid()
      ensures exit == Step(host, old(Contents()), r).Exit?
      ensures exit ==> Contents() == old(Contents())
      ensures !exit ==> Contents() == Step(host, old(Contents()), r).next
    {
      ghost var before := Contents();
      match r.kind {
        case Plan =>
          if model.Some? && model.value != "" {
            return true;
          }
          var text := host.text(r.data);
          model := Some(text);
          modelHash := Some(host.md5(text));
        case Field =>
          var text := host.text(r.data);
          if modelTime == 0 {
            modelTime := host.localMidnight(r.time);
          }
          var index := SlotIndex(r.time, modelTime);
          if 0 <= index < DaySlots {
            field[index] := Some(text);
          }
        case Engine =>
          if modelTime != 0 {
            var index := SlotIndex(r.time, modelTime);
            if 0 <= index < DaySlots {
              engines[index] := engines[index] + [r.data];
            }
          }
        case Other(_) =>
      }
      exit := false;
      assert Contents() == Step(host, before, r).next;
    }

    /** `start`: feeds the records the reader delivers, in order, to the
        callback. `readerFailed` says that the reader threw after
        delivering `records`. The readiness flag is raised only when the
        whole pass ends without an exit and without a reader failure. */
    method Start(records: seq<Record>, readerFailed: bool) returns (outcome: StartOutcome)
      requires Valid()
      modifies this, field, engines
      ensures Valid()
      ensures outcome == Exited <==> Ingest(host, old(Contents()), records).Exit?
      ensures outcome == ReadFailed <==> !Ingest(host, old(Contents()), records).Exit? && readerFailed
      ensures outcome != Exited ==> Contents() == Ingest(host, old(Contents()), records).next
      ensures ready == (old(ready) || outcome == Ready)
    {
      var i := 0;
      while i < |records|
        invariant 0 <= i <= |records|
        invariant Valid() && ready == old(ready)
        invariant Ingest(host, old(Contents()), records) == Ingest(host, Contents(), records[i..])
      {
        assert records[i..][0] == records[i];
        assert records[i..][1..] == records[i + 1..];
        var exit := OnRecord(records[i]);
        if exit {
          return Exited;
        }
        i := i + 1;
      }
      if readerFailed {
        return ReadFailed;
      }
      ready := true;
      outcome := Ready;
    }

    /** Serves one `/api/` request from the arrays, looking up a single
        slot, with the answer the specification of the handlers gives for
        the current state. */
    function Serve(route: Route): (r: Response)
      reads this, field, engines
      requires Valid()
      ensures r == Handle(ready, Contents(), route)
    {
      if !ready then BadRequest(NotReady)
      else
        match route
        case ModelRoute => Ok(PlanText(model))
        case FieldRoute(time) =>
          (match time
           case Missing => BadRequest(TimeNotSpecified)
           case NotANumber => BadRequest(NoDataFound)
           case Number(n) =>
             if !(0 <= n < DaySlots) || field[n] == None || field[n].value == "" then BadRequest(NoDataFound)
             else Ok(FieldJson(modelHash, field[n].value, engines[n])))
        case VersionRoute => Ok(Version())
        case OtherApiRoute => Unhandled
    }
  }
}
