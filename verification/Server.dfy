/** The HTTP gate and the audited tool calls of server.py, over the authenticator and the audit log. */
module Server {
  import opened Options
  import opened Sequences
  import opened Text
  import opened Redaction
  import RL = RateLimit
  import AL = AuditLog
  import Utf8

  // ----- Bearer tokens ---------------------------------------------------------------------------

  /** _extract_bearer_token; empty when the header is missing or holds no bearer token. */
  function ExtractBearerToken(authorization: string): string {
    var header := Strip(authorization);
    var sep := IndexOf(header, ' ');
    if sep == |header| || Lower(header[..sep]) != "bearer" then ""
    else Strip(header[sep + 1..])
  }

  /** "Bearer" in any mixture of cases, one space, and behind any further white space the token, which has
      no white space at its ends; white space around it all. */
  ghost predicate BearerHeader(
    header: string, lead: string, scheme: string, gap: string, token: string, trail: string)
  {
    && header == lead + (scheme + " " + gap + token) + trail
    && AllSpace(lead) && Spells(scheme, "bearer") && AllSpace(gap) && AllSpace(trail)
    && token != "" && Trimmed(token)
  }

  ghost predicate Carries(header: string, token: string) {
    exists lead, scheme, gap, trail :: BearerHeader(header, lead, scheme, gap, token, trail)
  }

  /** The token that a header carries, told from its form; empty when it carries none. */
  ghost function TokenOf(header: string): string {
    if exists token :: Carries(header, token) then var token :| Carries(header, token); token else ""
  }

  lemma BearerIsScheme(scheme: string)
    ensures Lower(scheme) == "bearer" <==> Spells(scheme, "bearer")
  {
    LowerIs(scheme, "bearer");
  }

  lemma SchemeHasNoSpace(scheme: string)
    requires Spells(scheme, "bearer")
    ensures |scheme| == 6 && ' ' !in scheme && !IsSpace(scheme[0])
  {
    forall i | 0 <= i < |scheme| ensures !IsSpace(scheme[i]) {
      assert SameLetter(scheme[i], "bearer"[i]);
    }
  }

  /** A header of that form gives its token. */
  lemma HeaderExtracts(header: string, lead: string, scheme: string, gap: string, token: string, trail: string)
    requires BearerHeader(header, lead, scheme, gap, token, trail)
    ensures ExtractBearerToken(header) == token
  {
    var body := scheme + " " + gap + token;
    SchemeHasNoSpace(scheme);
    assert body[0] == scheme[0] && body[|body| - 1] == token[|token| - 1];
    StripUnique(lead, body, trail);
    assert body == scheme + [' '] + (gap + token);
    IndexOfAfter(scheme, ' ', gap + token);
    assert body[..6] == scheme && body[7..] == gap + token;
    BearerIsScheme(scheme);
    assert gap + token + [] == gap + token;
    StripUnique(gap, token, []);
  }

  /** A token that is extracted stands in a header of that form. */
  lemma ExtractedIsCarried(header: string)
    requires ExtractBearerToken(header) != ""
    ensures Carries(header, ExtractBearerToken(header))
  {
    var lead, trail := StripTrims(header);
    var body := Strip(header);
    var sep := IndexOf(body, ' ');
    var scheme, rest := body[..sep], body[sep + 1..];
    BearerIsScheme(scheme);
    var gap, end := StripTrims(rest);
    NothingBehind(body, sep, gap, Strip(rest), end);
    AppendNothing(gap + Strip(rest));
    AroundSpace(body, sep, gap, Strip(rest));
    assert BearerHeader(header, lead, scheme, gap, Strip(rest), trail);
  }

  lemma AroundSpace(body: string, sep: nat, gap: string, token: string)
    requires sep < |body| && body[sep] == ' ' && body[sep + 1..] == gap + token
    ensures body == body[..sep] + " " + gap + token
  {
    assert body == body[..sep] + [' '] + body[sep + 1..];
  }

  lemma EndsAlike<T>(s: seq<T>, from: nat, a: seq<T>, b: seq<T>)
    requires b != [] && from <= |s| && s[from..] == a + b
    ensures s != [] && s[|s| - 1] == b[|b| - 1]
  {
    assert s[from..][|s| - from - 1] == (a + b)[|a + b| - 1];
  }

  lemma NothingBehind(body: string, sep: nat, gap: string, token: string, end: string)
    requires sep < |body| && Trimmed(body) && body[sep + 1..] == gap + token + end && AllSpace(end)
    ensures end == []
  {
    if end != [] { EndsAlike(body, sep + 1, gap + token, end); }
  }

  /** The middleware reads a header exactly by its form. */
  lemma ExtractsExactly(header: string, token: string)
    ensures token != "" ==> (ExtractBearerToken(header) == token <==> Carries(header, token))
    ensures ExtractBearerToken(header) == "" <==> forall t :: !Carries(header, t)
    ensures ExtractBearerToken(header) == TokenOf(header)
  {
    if ExtractBearerToken(header) != "" { ExtractedIsCarried(header); }
    forall t | Carries(header, t) ensures ExtractBearerToken(header) == t && t != "" {
      var lead, scheme, gap, trail :| BearerHeader(header, lead, scheme, gap, t, trail);
      HeaderExtracts(header, lead, scheme, gap, t, trail);
    }
  }

  // ----- Classification of tool failures ---------------------------------------------------------

  datatype Failure =
    | PathSecurityError | GlobSecurityError | WriteNotAllowedError | LogPathNotAllowedError
    | CommandRejectedError | PushNotAllowedError | JournalctlUnitNotAllowedError
    | OtherError(name: string)

  /** _event_for_tool */
  function EventForTool(tool: string, failure: Failure): string {
    match failure
    case PathSecurityError | GlobSecurityError | WriteNotAllowedError | LogPathNotAllowedError => "path.rejected"
    case CommandRejectedError => "command.rejected"
    case _ => "tool." + tool
  }

  /** _outcome_for_exception */
  function OutcomeForFailure(failure: Failure): AL.Outcome {
    if failure.OtherError? then AL.Error else AL.Denied
  }

  function FailureName(failure: Failure): string {
    match failure
    case PathSecurityError => "PathSecurityError"
    case GlobSecurityError => "GlobSecurityError"
    case WriteNotAllowedError => "WriteNotAllowedError"
    case LogPathNotAllowedError => "LogPathNotAllowedError"
    case CommandRejectedError => "CommandRejectedError"
    case PushNotAllowedError => "PushNotAllowedError"
    case JournalctlUnitNotAllowedError => "JournalctlUnitNotAllowedError"
    case OtherError(name) => name
  }

  /** A failure under a rejection event is one of the five rejections, whatever the tool is called,
      and counts as denied. The two remaining denials keep the name of their tool. */
  lemma RejectionsAreDenied(tool: string, failure: Failure)
    ensures EventForTool(tool, failure) in AL.AUDITED_REJECTED_EVENTS <==>
            OutcomeForFailure(failure) == AL.Denied
            && !failure.PushNotAllowedError? && !failure.JournalctlUnitNotAllowedError?
    ensures OutcomeForFailure(failure) == AL.Error <==> failure.OtherError?
    ensures EventForTool(tool, failure) == "command.rejected" <==> failure.CommandRejectedError?
  {
    var named := "tool." + tool;
    assert named[0] == 't' && "path.rejected"[0] == 'p' && "command.rejected"[0] == 'c';
  }

  // ----- Requests and tool calls -----------------------------------------------------------------

  datatype ToolResult = Returned(detail: string) | Raised(failure: Failure, message: Points)

  /** A tool call with the project it names, its summarized arguments, and what the tool itself did. */
  datatype ToolCall = ToolCall(
    name: string, tokenId: string, project: Points, args: map<Points, Value>, result: ToolResult)

  datatype Event =
    | NonHttp
    | Http(authorization: string, time: real)
    | Tool(call: ToolCall, time: real)

  /** NotLogged: the audit line could not be encoded, and that error takes the place of the result. */
  datatype Response = AppEntered | Unauthorized | TooManyRequests | ToolDone(result: ToolResult) | NotLogged

  datatype Setup = Setup(hash: string -> string, expectedHash: string, max: nat, log: AL.Config)

  datatype ServerState = ServerState(buckets: RL.Buckets, log: AL.LogState)

  const INITIAL := ServerState(map[], AL.EMPTY_LOG)

  /** The lines of requests that the gate turns away. */
  function AuthFailedRecord(id: string): AL.Record {
    AL.Record("auth.failed", AL.Denied, id, [], "", None, "AuthFailed", PointsOf("unauthorized"), "")
  }

  function RateLimitedRecord(id: string): AL.Record {
    AL.Record("auth.rate_limited", AL.Denied, id, [], "", None,
              "RateLimitExceeded", PointsOf("rate limit exceeded"), "")
  }

  lemma RefusalsAreWritten(id: string, auditReads: bool)
    ensures AL.IsWritten(AuthFailedRecord(id), auditReads) && AL.IsWritten(RateLimitedRecord(id), auditReads)
    ensures AL.LineOf(AuthFailedRecord(id)) == AuthFailedRecord(id)
    ensures AL.LineOf(RateLimitedRecord(id)) == RateLimitedRecord(id)
  {
    CharsOfPoints("unauthorized");
    CharsOfPoints("rate limit exceeded");
  }

  /** The record of a tool call, successful or not. */
  function ToolRecord(c: ToolCall): AL.Record {
    match c.result
    case Returned(detail) =>
      AL.Record("tool." + c.name, AL.Success, c.tokenId, c.project, c.name, Some(c.args), "", [], detail)
    case Raised(failure, message) =>
      AL.Record(EventForTool(c.name, failure), OutcomeForFailure(failure), c.tokenId, c.project, c.name, Some(c.args),
                FailureName(failure), message, "")
  }

  /** What the gate does with the authenticator's answer. */
  function GateStep(setup: Setup, log: AL.LogState, id: string, result: RL.AuthResult, time: real)
    : (AL.LogState, Response)
  {
    match result
    case Authenticated(_) => (log, AppEntered)
    case AuthFailed => (AL.LogStep(setup.log, log, AuthFailedRecord(id), time), Unauthorized)
    case TooManyRequests => (AL.LogStep(setup.log, log, RateLimitedRecord(id), time), TooManyRequests)
  }

  function HttpStep(setup: Setup, s: ServerState, token: string, time: real): (ServerState, Response) {
    var (buckets, result) := RL.AuthStep(setup.hash, setup.expectedHash, setup.max, s.buckets, token, time);
    var (log, response) := GateStep(setup, s.log, RL.TokenLogId(setup.hash, token), result, time);
    (ServerState(buckets, log), response)
  }

  function ServerStep(setup: Setup, s: ServerState, e: Event): (ServerState, Response) {
    match e
    case NonHttp => (s, AppEntered)
    case Http(authorization, time) => HttpStep(setup, s, ExtractBearerToken(authorization), time)
    case Tool(call, time) =>
      (s.(log := AL.LogStep(setup.log, s.log, ToolRecord(call), time)),
       if AL.Raises(ToolRecord(call), setup.log.auditReads) then NotLogged else ToolDone(call.result))
  }

  lemma HttpStepParts(setup: Setup, s: ServerState, token: string, time: real,
                      buckets: RL.Buckets, result: RL.AuthResult, log: AL.LogState, response: Response)
    requires (buckets, result) == RL.AuthStep(setup.hash, setup.expectedHash, setup.max, s.buckets, token, time)
    requires (log, response) == GateStep(setup, s.log, RL.TokenLogId(setup.hash, token), result, time)
    ensures HttpStep(setup, s, token, time) == (ServerState(buckets, log), response)
  {
  }

  lemma ServerStepHttp(setup: Setup, s: ServerState, authorization: string, time: real, token: string)
    requires token == ExtractBearerToken(authorization)
    ensures ServerStep(setup, s, Http(authorization, time)) == HttpStep(setup, s, token, time)
  {
  }

  class Gateway {
    const authenticator: RL.Authenticator
    const audit: AL.AuditLogger

    constructor (authenticator: RL.Authenticator, audit: AL.AuditLogger)
      ensures this.authenticator == authenticator && this.audit == audit
    {
      this.authenticator := authenticator;
      this.audit := audit;
    }

    ghost function SetupOf(): Setup {
      Setup(authenticator.hash, authenticator.expectedHash, authenticator.rateLimiter.maxPerMinute, audit.cfg)
    }

    ghost function State(): ServerState
      reads authenticator.rateLimiter, audit
    {
      ServerState(authenticator.rateLimiter.buckets, audit.State())
    }

    /** BearerAuthMiddleware.__call__ for the http scope; AppEntered says that the app is called. */
    method HandleHttp(authorization: string, now: real) returns (response: Response)
      requires audit.Valid()
      modifies authenticator.rateLimiter, audit
      ensures audit.Valid()
      ensures (State(), response) == ServerStep(SetupOf(), old(State()), Http(authorization, now))
    {
      var token := ExtractBearerToken(authorization);
      response := HandleToken(token, now);
      ServerStepHttp(SetupOf(), old(State()), authorization, now, token);
    }

    method HandleToken(token: string, now: real) returns (response: Response)
      requires audit.Valid()
      modifies authenticator.rateLimiter, audit
      ensures audit.Valid()
      ensures (State(), response) == HttpStep(SetupOf(), old(State()), token, now)
    {
      var result := authenticator.Check(token, now);
      response := Answer(RL.TokenLogId(authenticator.hash, token), result, now);
      HttpStepParts(SetupOf(), old(State()), token, now,
                    authenticator.rateLimiter.buckets, result, audit.State(), response);
    }

    /** The handlers of the middleware: the denied line, which never fails, and the status of a
        refused request. */
    method Answer(id: string, result: RL.AuthResult, now: real) returns (response: Response)
      requires audit.Valid()
      modifies audit
      ensures audit.Valid()
      ensures (audit.State(), response) == GateStep(SetupOf(), old(audit.State()), id, result, now)
    {
      if result.AuthFailed? {
        var _ := audit.Log(AuthFailedRecord(id), now);
        return Unauthorized;
      }
      if result.TooManyRequests? {
        var _ := audit.Log(RateLimitedRecord(id), now);
        return TooManyRequests;
      }
      return AppEntered;
    }

    /** _call_with_audit, given what the call did. A failure is raised again after the line; an error
        of the line itself comes first in either case. */
    method CallWithAudit(call: ToolCall, now: real) returns (response: Response)
      requires audit.Valid()
      modifies audit
      ensures audit.Valid()
      ensures (State(), response) == ServerStep(SetupOf(), old(State()), Tool(call, now))
    {
      var raised: bool;
      match call.result {
        case Raised(failure, message) =>
          raised := audit.Log(
            AL.Record(EventForTool(call.name, failure), OutcomeForFailure(failure), call.tokenId, call.project,
                      call.name, Some(call.args), FailureName(failure), message, ""), now);
        case Returned(detail) =>
          raised := audit.Log(
            AL.Record("tool." + call.name, AL.Success, call.tokenId, call.project,
                      call.name, Some(call.args), "", [], detail), now);
      }
      if raised {
        return NotLogged;
      }
      return ToolDone(call.result);
    }
  }

  // ----- Runs ------------------------------------------------------------------------------------

  function StateAfter(setup: Setup, events: seq<Event>): ServerState {
    if events == [] then INITIAL
    else ServerStep(setup, StateAfter(setup, events[..|events| - 1]), events[|events| - 1]).0
  }

  function ResponseAt(setup: Setup, events: seq<Event>, k: nat): Response
    requires k < |events|
  {
    ServerStep(setup, StateAfter(setup, events[..k]), events[k]).1
  }

  ghost function RequestOf(e: Event): RL.Request
    requires e.Http?
  {
    RL.Request(TokenOf(e.authorization), e.time)
  }

  /** The authentication requests among the events. */
  ghost function RequestsOf(events: seq<Event>): seq<RL.Request> {
    if events == [] then []
    else
      var e := events[|events| - 1];
      RequestsOf(events[..|events| - 1]) +
      (if e.Http? then [RequestOf(e)] else [])
  }

  /** A successful call of a read tool while reads are not audited. */
  predicate SilentRead(setup: Setup, c: ToolCall) {
    c.result.Returned? && "tool." + c.name in AL.AUDITED_READ_EVENTS && !setup.log.auditReads
  }

  /** No text of the call that redaction lets through has a lone surrogate. */
  predicate LoggableCall(c: ToolCall) {
    && Utf8.IsScalarText(c.project)
    && (c.result.Raised? ==> Utf8.IsScalarText(c.result.message))
    && Loggable(Dict(c.args))
  }

  predicate Refused(response: Response) {
    response.Unauthorized? || response.TooManyRequests?
  }

  /** The line that tells of a refused request. */
  function RefusalLines(id: string, response: Response): seq<AL.Record> {
    match response
    case Unauthorized => [AuthFailedRecord(id)]
    case TooManyRequests => [RateLimitedRecord(id)]
    case _ => []
  }

  /** The lines that event k must add, from the event and the response it got. */
  ghost function LinesOf(setup: Setup, e: Event, response: Response): seq<AL.Record> {
    match e
    case NonHttp => []
    case Http(authorization, _) => RefusalLines(RL.TokenLogId(setup.hash, TokenOf(authorization)), response)
    case Tool(call, _) =>
      if SilentRead(setup, call) || !LoggableCall(call) then [] else [AL.LineOf(ToolRecord(call))]
  }

  ghost function LinesOfRun(setup: Setup, events: seq<Event>): seq<AL.Record> {
    if events == [] then []
    else
      var n := |events| - 1;
      LinesOfRun(setup, events[..n]) + LinesOf(setup, events[n], ResponseAt(setup, events, n))
  }

  lemma GateAddsItsLine(setup: Setup, log: AL.LogState, id: string, result: RL.AuthResult, time: real)
    ensures var (after, response) := GateStep(setup, log, id, result, time);
            AL.AllLines(after) == AL.AllLines(log) + RefusalLines(id, response)
  {
    RefusalsAreWritten(id, setup.log.auditReads);
    AL.LogStepAdds(setup.log, log, AuthFailedRecord(id), time);
    AL.LogStepAdds(setup.log, log, RateLimitedRecord(id), time);
    AppendNothing(AL.AllLines(log));
  }

  /** Each step adds to the log exactly its own lines. */
  lemma StepAddsItsLines(setup: Setup, s: ServerState, e: Event)
    ensures var (after, response) := ServerStep(setup, s, e);
            AL.AllLines(after.log) == AL.AllLines(s.log) + LinesOf(setup, e, response)
  {
    match e
    case NonHttp =>
      AppendNothing(AL.AllLines(s.log));
    case Http(authorization, time) =>
      var token := ExtractBearerToken(authorization);
      ExtractsExactly(authorization, token);
      var result := RL.AuthStep(setup.hash, setup.expectedHash, setup.max, s.buckets, token, time).1;
      GateAddsItsLine(setup, s.log, RL.TokenLogId(setup.hash, token), result, time);
    case Tool(call, time) =>
      PolicyOfTool(setup, call);
      AL.LogStepAdds(setup.log, s.log, ToolRecord(call), time);
  }

  /** The policy keeps silent about successful reads with audit_reads off, and about nothing else; what
      it logs is written exactly when the call's texts allow it. */
  lemma PolicyOfTool(setup: Setup, c: ToolCall)
    ensures AL.IsLogged(ToolRecord(c), setup.log.auditReads) <==> !SilentRead(setup, c)
    ensures AL.IsWritten(ToolRecord(c), setup.log.auditReads) <==> !SilentRead(setup, c) && LoggableCall(c)
  {
    var event := "tool." + c.name;
    if event in AL.AUDITED_READ_EVENTS {
      EventSetsDisjoint(event);
    }
    PolicyOfEvent(event, setup.log.auditReads);
    AL.EncodableExactly(ToolRecord(c));
  }

  lemma PolicyOfEvent(event: string, auditReads: bool)
    requires event in AL.AUDITED_READ_EVENTS ==>
               && event !in AL.AUDITED_AUTH_EVENTS && event !in AL.AUDITED_REJECTED_EVENTS
               && event !in AL.AUDITED_WRITE_EVENTS
    ensures AL.ShouldAudit(event, auditReads) <==> (event in AL.AUDITED_READ_EVENTS ==> auditReads)
  {
  }

  lemma EventSetsDisjoint(event: string)
    requires event in AL.AUDITED_READ_EVENTS
    ensures event !in AL.AUDITED_AUTH_EVENTS && event !in AL.AUDITED_REJECTED_EVENTS
    ensures event !in AL.AUDITED_WRITE_EVENTS
  {
  }

  /** Over any sequence of requests and tool calls, the log (archives and current file together) is
      exactly: one denied line for each refused request, one line for each tool call that is not a
      silent read and whose texts can be encoded, nothing for a request that gets in, in the order of
      the events. */
  lemma {:induction false} LogIsExact(setup: Setup, events: seq<Event>)
    ensures AL.AllLines(StateAfter(setup, events).log) == LinesOfRun(setup, events)
  {
    if events != [] {
      var n := |events| - 1;
      LogIsExact(setup, events[..n]);
      StepAddsItsLines(setup, StateAfter(setup, events[..n]), events[n]);
    }
  }

  lemma LinesAreClean(setup: Setup, e: Event, response: Response)
    ensures forall line :: line in LinesOf(setup, e, response) ==> AL.CleanLine(line)
  {
    if e.Tool? { AL.LineOfIsClean(ToolRecord(e.call)); }
  }

  lemma {:induction false} LinesOfRunAreClean(setup: Setup, events: seq<Event>)
    ensures forall line :: line in LinesOfRun(setup, events) ==> AL.CleanLine(line)
  {
    if events != [] {
      var n := |events| - 1;
      LinesOfRunAreClean(setup, events[..n]);
      LinesAreClean(setup, events[n], ResponseAt(setup, events, n));
    }
  }

  /** No line that any run of the server leaves anywhere in the log holds a secret argument. */
  lemma {:induction false} ServerLogIsClean(setup: Setup, events: seq<Event>)
    ensures forall line :: line in AL.AllLines(StateAfter(setup, events).log) ==> AL.CleanLine(line)
  {
    LogIsExact(setup, events);
    LinesOfRunAreClean(setup, events);
  }

  /** By how many lines the log grows: one denied line for a refused request and none for one that gets
      in; one for a tool call, none for a silent read, and none for a call with a text that cannot be
      encoded, whose caller then gets an error in place of the result. */
  lemma LineCount(setup: Setup, s: ServerState, e: Event)
    ensures var (after, response) := ServerStep(setup, s, e);
            var grown := |AL.AllLines(after.log)| - |AL.AllLines(s.log)|;
            && (e.NonHttp? ==> grown == 0)
            && (e.Http? ==> grown == if Refused(response) then 1 else 0)
            && (e.Tool? ==> grown == if SilentRead(setup, e.call) || !LoggableCall(e.call) then 0 else 1)
            && (e.Tool? ==> (response == NotLogged <==> !SilentRead(setup, e.call) && !LoggableCall(e.call)))
  {
    StepAddsItsLines(setup, s, e);
    match e
    case NonHttp =>
    case Http(authorization, time) =>
      RefusalCount(RL.TokenLogId(setup.hash, TokenOf(authorization)), ServerStep(setup, s, e).1);
    case Tool(call, _) => PolicyOfTool(setup, call);
  }

  /** Such calls exist: a write whose path has a lone surrogate in it has been done, and there is no line
      that tells of it. */
  lemma UnloggedWrite(setup: Setup, s: ServerState, tokenId: string, time: real) returns (call: ToolCall)
    ensures call.name == "write_file" && call.result.Returned?
    ensures var (after, response) := ServerStep(setup, s, Tool(call, time));
            response == NotLogged && AL.AllLines(after.log) == AL.AllLines(s.log)
  {
    var args := PathArgument();
    call := ToolCall("write_file", tokenId, [], args, Returned(""));
    WriteIsAudited();
    UnloggableCall(setup, s, call, time);
  }

  lemma UnloggableCall(setup: Setup, s: ServerState, call: ToolCall, time: real)
    requires !SilentRead(setup, call) && !LoggableCall(call)
    ensures var (after, response) := ServerStep(setup, s, Tool(call, time));
            response == NotLogged && AL.AllLines(after.log) == AL.AllLines(s.log)
  {
    LineCount(setup, s, Tool(call, time));
    StepAddsItsLines(setup, s, Tool(call, time));
    AppendNothing(AL.AllLines(s.log));
  }

  lemma PathArgument() returns (args: map<Points, Value>)
    ensures !Loggable(Dict(args))
  {
    var path: Points := [0x61, 0xDC80];
    args := map[PointsOf("path") := Str(path)];
    PathKeyIsPlain();
    assert Utf8.IsSurrogate(path[1]);
    assert Chars(path)[0] == 'a' && Chars(path)[1] != ':';
    assert PointsOf("path") in args && !Loggable(args[PointsOf("path")]);
  }

  lemma PathKeyIsPlain()
    ensures !IsRedactKey(PointsOf("path"))
  {
    CharsOfPoints("path");
    var key := "path";
    assert Lower(key) == key by {
      assert key[1..] == "ath" && "ath"[1..] == "th" && "th"[1..] == "h" && "h"[1..] == [];
      assert Lower("h") == "h" && Lower("th") == "th" && Lower("ath") == "ath";
    }
    forall sub | sub in REDACT_KEY_SUBSTRINGS ensures !Contains(key, sub) {
      assert |sub| > |key|;
    }
  }

  lemma WriteIsAudited()
    ensures "tool." + "write_file" !in AL.AUDITED_READ_EVENTS
  {
    var event := "tool." + "write_file";
    assert |event| == 15 && event[5] == 'w';
  }

  lemma RefusalCount(id: string, response: Response)
    ensures |RefusalLines(id, response)| == if Refused(response) then 1 else 0
  {
  }

  /** The line of a refused request: denied, by its event and by the log id of the token that the header
      carries, and without any argument. */
  lemma RefusalIsDenied(setup: Setup, s: ServerState, header: string, time: real) returns (line: AL.Record)
    requires Refused(ServerStep(setup, s, Http(header, time)).1)
    ensures var (after, response) := ServerStep(setup, s, Http(header, time));
            && AL.AllLines(after.log) == AL.AllLines(s.log) + [line]
            && line.outcome == AL.Denied
            && line.event == (if response == Unauthorized then "auth.failed" else "auth.rate_limited")
            && line.errorClass == (if response == Unauthorized then "AuthFailed" else "RateLimitExceeded")
            && line.tokenId == RL.TokenLogId(setup.hash, TokenOf(header))
            && line.args == None && line.tool == "" && line.project == []
  {
    var response := ServerStep(setup, s, Http(header, time)).1;
    var id := RL.TokenLogId(setup.hash, TokenOf(header));
    line := if response == Unauthorized then AuthFailedRecord(id) else RateLimitedRecord(id);
    StepAddsItsLines(setup, s, Http(header, time));
  }

  /** The line of a tool call: a success exactly when the call returned, under the tool's own event; a
      failure as denied exactly for the seven rejections, under the event of its kind. */
  lemma ToolLineTells(c: ToolCall)
    ensures var line := AL.LineOf(ToolRecord(c));
            && line.tool == c.name && line.tokenId == c.tokenId && line.project == c.project
            && (line.outcome == AL.Success <==> c.result.Returned?)
            && (c.result.Returned? ==> line.event == "tool." + c.name && line.outcomeDetail == c.result.detail)
            && (c.result.Raised? ==>
                  var failure := c.result.failure;
                  && (line.outcome == AL.Error <==> failure.OtherError?)
                  && line.event ==
                     (if failure == CommandRejectedError then "command.rejected"
                      else if failure in {PathSecurityError, GlobSecurityError, WriteNotAllowedError,
                                          LogPathNotAllowedError} then "path.rejected"
                      else "tool." + c.name)
                  && line.errorMessage == c.result.message
                  && (failure.OtherError? ==> line.errorClass == failure.name)
                  && (failure == PathSecurityError ==> line.errorClass == "PathSecurityError")
                  && (failure == CommandRejectedError ==> line.errorClass == "CommandRejectedError"))
            && (line.args.Some? ==> line.args.value.Keys == c.args.Keys)
  {
    AL.LineKeeps(ToolRecord(c));
  }

  /** Which calls go unlogged when reads are not audited. */
  lemma SilentReadExactly(setup: Setup, c: ToolCall)
    ensures !AL.IsLogged(ToolRecord(c), setup.log.auditReads) <==>
              && c.result.Returned? && !setup.log.auditReads
              && "tool." + c.name in
                 {"tool.read_file", "tool.list_projects", "tool.list_directory", "tool.search_files", "tool.git_status",
                  "tool.git_diff", "tool.git_log", "tool.git_branch_current", "tool.tail_log", "tool.read_journalctl",
                  "tool.list_systemd_services", "tool.get_system_info"}
  {
    PolicyOfTool(setup, c);
  }

  lemma {:induction false} BucketsFollowRequests(setup: Setup, events: seq<Event>)
    ensures StateAfter(setup, events).buckets ==
            RL.AuthBuckets(setup.hash, setup.expectedHash, setup.max, RequestsOf(events))
  {
    if events != [] {
      var n := |events| - 1;
      BucketsFollowRequests(setup, events[..n]);
      BucketsOfStep(setup, StateAfter(setup, events[..n]), events[n]);
      if events[n].Http? {
        AuthBucketsSnoc(setup, RequestsOf(events[..n]), RequestOf(events[n]));
      } else {
        assert RequestsOf(events) == RequestsOf(events[..n]);
      }
    }
  }

  lemma AuthBucketsSnoc(setup: Setup, requests: seq<RL.Request>, next: RL.Request)
    ensures RL.AuthBuckets(setup.hash, setup.expectedHash, setup.max, requests + [next]) ==
            RL.AuthStep(setup.hash, setup.expectedHash, setup.max,
                        RL.AuthBuckets(setup.hash, setup.expectedHash, setup.max, requests), next.token, next.time).0
  {
    assert (requests + [next])[..|requests|] == requests;
  }

  lemma BucketsOfStep(setup: Setup, s: ServerState, e: Event)
    ensures ServerStep(setup, s, e).0.buckets ==
            if e.Http? then
              RL.AuthStep(setup.hash, setup.expectedHash, setup.max, s.buckets,
                          RequestOf(e).token, RequestOf(e).time).0
            else s.buckets
  {
    if e.Http? { ExtractsExactly(e.authorization, ""); }
  }

  /** The gate answers as the authenticator does. */
  lemma ResponseOfHttp(setup: Setup, s: ServerState, token: string, time: real)
    ensures HttpStep(setup, s, token, time).1 ==
            match RL.AuthStep(setup.hash, setup.expectedHash, setup.max, s.buckets, token, time).1
            case Authenticated(_) => AppEntered
            case AuthFailed => Unauthorized
            case TooManyRequests => TooManyRequests
  {
  }

  lemma RequestIsExact(setup: Setup, s: ServerState, requests: seq<RL.Request>, request: RL.Request)
    requires s.buckets == RL.AuthBuckets(setup.hash, setup.expectedHash, setup.max, requests)
    requires RL.Monotone(RL.LimiterCalls(setup.hash, setup.expectedHash, requests + [request]))
    ensures HttpStep(setup, s, request.token, request.time).1 == DueResponse(setup, requests, request)
  {
    RL.NextAuthIsExact(setup.hash, setup.expectedHash, setup.max, requests, request);
    ResponseOfHttp(setup, s, request.token, request.time);
  }

  /** The answer that a request is due after the given requests, counted from their times alone. */
  function DueResponse(setup: Setup, requests: seq<RL.Request>, next: RL.Request): Response {
    var hits := RL.Hits(setup.max, RL.LimiterCalls(setup.hash, setup.expectedHash, requests),
                        RL.TokenLogId(setup.hash, next.token));
    if next.token == "" || setup.hash(next.token) != setup.expectedHash then Unauthorized
    else if RL.CountIn(hits, next.time - 60.0, next.time) < setup.max then AppEntered
    else TooManyRequests
  }

  /** The app is entered exactly for requests whose token is valid and that find fewer than the
      allowed number of accepted requests of that token in their last 60 seconds; a request with an
      invalid token is answered 401, one over the limit 429. */
  lemma {:induction false} GateIsExact(setup: Setup, events: seq<Event>, next: Event)
    requires next.Http?
    requires RL.Monotone(RL.LimiterCalls(setup.hash, setup.expectedHash, RequestsOf(events) + [RequestOf(next)]))
    ensures ServerStep(setup, StateAfter(setup, events), next).1 ==
            DueResponse(setup, RequestsOf(events), RequestOf(next))
  {
    BucketsFollowRequests(setup, events);
    ExtractsExactly(next.authorization, "");
    RequestIsExact(setup, StateAfter(setup, events), RequestsOf(events), RequestOf(next));
  }

  /** The form that clients send. */
  lemma PlainBearer(token: string)
    requires token != "" && Trimmed(token)
    ensures Carries("Bearer " + token, token) && TokenOf("Bearer " + token) == token
  {
    assert "Bearer " + token == "" + ("Bearer" + " " + "" + token) + "";
    assert BearerHeader("Bearer " + token, "", "Bearer", "", token, "");
    ExtractsExactly("Bearer " + token, token);
  }

  /** The answer to a header that carries a token is the one that is due to that token, however the scheme
      is spelled and spaced. */
  lemma {:induction false} HeaderIsAnswered(setup: Setup, events: seq<Event>, header: string, token: string, time: real)
    requires Carries(header, token)
    requires RL.Monotone(RL.LimiterCalls(setup.hash, setup.expectedHash,
                                         RequestsOf(events) + [RL.Request(token, time)]))
    ensures ServerStep(setup, StateAfter(setup, events), Http(header, time)).1 ==
            DueResponse(setup, RequestsOf(events), RL.Request(token, time))
  {
    ExtractsExactly(header, token);
    HeaderExtractsSome(header, token);
    GateIsExact(setup, events, Http(header, time));
  }

  lemma HeaderExtractsSome(header: string, token: string)
    requires Carries(header, token)
    ensures ExtractBearerToken(header) == token && token != ""
  {
    var lead, scheme, gap, trail :| BearerHeader(header, lead, scheme, gap, token, trail);
    HeaderExtracts(header, lead, scheme, gap, token, trail);
  }

  /** Any other header is answered 401 in every state, and the limiter does not notice it. */
  lemma OtherHeaderRefused(setup: Setup, s: ServerState, header: string, time: real)
    requires forall token :: !Carries(header, token)
    ensures var (after, response) := ServerStep(setup, s, Http(header, time));
            response == Unauthorized && after.buckets == s.buckets
  {
    ExtractsExactly(header, "");
    ResponseOfHttp(setup, s, "", time);
  }

  /** The same with requests that enter at most `d` seconds late: the answer to a valid token is that of
      the limit, within d seconds. */
  lemma GateWithin(setup: Setup, d: real, events: seq<Event>, next: Event)
    requires next.Http? && d >= 0.0 && RL.ValidToken(setup.hash, setup.expectedHash, RequestOf(next).token)
    requires RL.Skewed(d, RL.LimiterCalls(setup.hash, setup.expectedHash, RequestsOf(events) + [RequestOf(next)]),
                       RL.TokenLogId(setup.hash, RequestOf(next).token))
    ensures var response := ServerStep(setup, StateAfter(setup, events), next).1;
            var hits := RL.Hits(setup.max, RL.LimiterCalls(setup.hash, setup.expectedHash, RequestsOf(events)),
                                RL.TokenLogId(setup.hash, RequestOf(next).token));
            && (response == AppEntered || response == TooManyRequests)
            && RL.VerdictBounds(setup.max, d, hits, next.time, response == AppEntered)
  {
    BucketsFollowRequests(setup, events);
    ExtractsExactly(next.authorization, "");
    ResponseOfHttp(setup, StateAfter(setup, events), RequestOf(next).token, next.time);
    RL.NextAuthWithin(setup.hash, setup.expectedHash, setup.max, d, RequestsOf(events), RequestOf(next));
  }
}
