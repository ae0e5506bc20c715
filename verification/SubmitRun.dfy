/**
 Submitting a run and deciding what the answer means (cmd/showmesh-fpp-plugin/client.go).
 */
module SubmitRuns {
  import opened Sequences
  import opened FailureBuffers

  const MAX_RUN_RESPONSE_BYTES := 0x10_0000

  datatype MacroRun = MacroRun(id: string, macroObjectId: string, macroRevision: int)

  /** `run` is the decoded run of a body that decodes; an empty object decodes to empty fields. */
  datatype Body = Body(length: nat, run: Option<MacroRun>)

  /** What one HTTP exchange can give the client. */
  datatype Reply =
    | NoResponse
    | BodyLost(status: int)
    | Response(status: int, body: Body)

  datatype SubmitResult = SubmitResult(outcome: OutcomeClass, httpStatus: int, run: Option<MacroRun>)

  function ClassifyHttpStatus(status: int): OutcomeClass {
    if 200 <= status < 300 then Ok
    else if status == 401 || status == 403 then Refused
    else if 400 <= status < 500 then Rejected
    else Unreachable
  }

  /** The reply demonstrably says that the run of `macroId` was accepted. */
  predicate Confirms(reply: Reply, macroId: string) {
    && reply.Response?
    && 200 <= reply.status < 300
    && reply.body.length <= MAX_RUN_RESPONSE_BYTES
    && reply.body.run.Some?
    && reply.body.run.value.id != ""
    && reply.body.run.value.macroObjectId == macroId
  }

  /** The status that was received, and 0 when none was. */
  function StatusOf(reply: Reply): int {
    if reply.NoResponse? then 0 else reply.status
  }

  function Submitted(reply: Reply, macroId: string): SubmitResult {
    match reply
    case NoResponse => SubmitResult(Unreachable, 0, None)
    case BodyLost(status) => SubmitResult(Unreachable, status, None)
    case Response(status, body) =>
      if body.length > MAX_RUN_RESPONSE_BYTES then SubmitResult(Unreachable, status, None)
      else if ClassifyHttpStatus(status) != Ok then SubmitResult(ClassifyHttpStatus(status), status, None)
      else if body.run.None? || body.run.value.id == "" || body.run.value.macroObjectId != macroId then
        SubmitResult(Unreachable, status, None)
      else SubmitResult(Ok, status, body.run)
  }

  method SubmitMacroRun(reply: Reply, macroId: string) returns (result: SubmitResult)
    ensures result == Submitted(reply, macroId)
  {
    if reply.NoResponse? {
      return SubmitResult(Unreachable, 0, None);
    }
    if reply.BodyLost? {
      return SubmitResult(Unreachable, reply.status, None);
    }
    if reply.body.length > MAX_RUN_RESPONSE_BYTES {
      return SubmitResult(Unreachable, reply.status, None);
    }
    var outcome := ClassifyHttpStatus(reply.status);
    result := SubmitResult(outcome, reply.status, None);
    if outcome == Ok {
      if reply.body.run.None? {
        return SubmitResult(Unreachable, reply.status, None);
      }
      var decoded := reply.body.run.value;
      if decoded.id == "" {
        return SubmitResult(Unreachable, reply.status, None);
      }
      if decoded.macroObjectId != macroId {
        return SubmitResult(Unreachable, reply.status, None);
      }
      return result.(run := Some(decoded));
    }
  }

  /** The five outcomes by what came back. A run is accepted if and only if a 2xx answer of at most
      1 MiB decodes with a run id and the submitted macro; refused and rejected are 4xx answers of at
      most 1 MiB, refused being 401 and 403; and everything else is unreachable: no answer, a lost or
      oversized body, a 2xx that confirms nothing, any other status. */
  lemma OkOnlyWhenConfirmed(reply: Reply, macroId: string)
    ensures var r := Submitted(reply, macroId);
      var whole := reply.Response? && reply.body.length <= 1_048_576;
      var confirmed := whole && 200 <= reply.status <= 299 && reply.body.run.Some?
        && reply.body.run.value.id != "" && reply.body.run.value.macroObjectId == macroId;
      && (Confirms(reply, macroId) <==> confirmed)
      && (r.outcome == Ok <==> confirmed)
      && (r.outcome == Refused <==> whole && (reply.status == 401 || reply.status == 403))
      && (r.outcome == Rejected <==> whole && 400 <= reply.status <= 499 && reply.status != 401 && reply.status != 403)
      && (r.outcome == Unreachable <==> !confirmed && !(whole && 400 <= reply.status <= 499))
      && r.run == (if confirmed then reply.body.run else None)
      && r.httpStatus == (if reply.NoResponse? then 0 else reply.status)
      && r.httpStatus == StatusOf(reply)
    ensures Submitted(reply, macroId).outcome != Ok <==> IsWireFailureClass(Submitted(reply, macroId).outcome)
  {
  }
}
