/** Many requests on their way through the gateway at once: origin check, validation,
    identity, answer and publication, interleaved with refreshes of the application table. */
module Pipeline {
  import opened Wrappers
  import opened Text
  import opened Errors
  import opened Encryption
  import opened RequestContext
  import opened EventBatch
  import opened IfaMatching
  import Apps = AppRegistry
  import Cors
  import Reg = Registration
  import Uuid

  datatype Config = Config(cors: Option<Cors.Index>, policy: Apps.Policy, aead: Aead)

  datatype Incoming = Incoming(headers: Headers, batch: Batch, raw: Str)

  datatype RegistrationData = RegistrationData(apiToken: Option<Str>, deviceId: Str)

  datatype EventResult = EventResult(id: Str, registration: Option<RegistrationData>)

  /** What is handed to Kafka. */
  datatype Record = Record(key: Option<Str>, proto: ProtoBatch)

  /** How far a request has come. `seen` is the table its validation used. */
  datatype Stage =
    | Arrived
    | Admitted(context: Context)
    | Validated(context: Context, seen: Apps.Table)
    | Held(context: Context, seen: Apps.Table, id: DeviceId)
    | Identified(context: Context, seen: Apps.Table, id: DeviceId)
    | Resolved(context: Context, seen: Apps.Table, results: seq<EventResult>)
    | Sent(context: Context, seen: Apps.Table, results: seq<EventResult>, record: Record)
    | Accepted(context: Context, seen: Apps.Table, results: seq<EventResult>, record: Record)
    | Undelivered(context: Context, seen: Apps.Table, results: seq<EventResult>, record: Record)
    | Rejected(error: GatewayError)
    | Aborted

  datatype Request = Request(incoming: Incoming, stage: Stage)

  datatype Entry = Entry(request: nat, record: Record)

  /** Requests are numbered as they arrive; `counter` is EVENTS_COUNTER. */
  datatype Sys = Sys(
    apps: Apps.Table,
    registration: Reg.State,
    log: seq<Entry>,
    counter: nat,
    requests: seq<Request>
  )

  type Nonce = n: Str | |n| == NONCE_LEN witness Zeros(NONCE_LEN)

  datatype Label =
    | Arrive(incoming: Incoming)
    | Refresh(refresh: Apps.Refresh)
    | Admit(r: nat)
    | Check(r: nat)
    | Read(r: nat, readFault: ReadFault, generated: Uuid.Uuid, nonce: Nonce)
    | Write(r: nat, writeFault: WriteFault)
    | GiveUp(r: nat)
    | Respond(r: nat)
    | Publish(r: nat, order: seq<Event>, createdAt: int)
    | Resolve(r: nat, delivered: bool)

  // ---------------------------------------------------------------------------
  // The pieces of the handler
  // ---------------------------------------------------------------------------

  ghost function ContextOf(cfg: Config, incoming: Incoming): Context {
    FromHeaders(cfg.aead, incoming.headers, incoming.batch.appId, PlatformOf(incoming.batch.device))
  }

  predicate Registers(incoming: Incoming) {
    FirstRegister(incoming.batch.events).Some?
  }

  function InputOf(incoming: Incoming): Reg.Input {
    Reg.Input(incoming.batch.appId, incoming.batch.device.ifa, incoming.batch.device.ifaTrackingEnabled)
  }

  /** A registration whose device sent no usable id goes through the table. */
  predicate NeedsDevice(incoming: Incoming, context: Context) {
    Registers(incoming) && context.deviceId.None?
  }

  ghost function StageOfAdmit(cfg: Config, incoming: Incoming): Stage {
    var context := ContextOf(cfg, incoming);
    if !Survives(cfg.aead, incoming.headers) then Aborted
    else if Cors.OriginAccepted(cfg.cors, context.appId, context.platform, context.origin) then Admitted(context)
    else Rejected(UnknownOrigin)
  }

  function StageOfCheck(cfg: Config, apps: Apps.Table, incoming: Incoming, context: Context): Stage {
    match Apps.Validate(cfg.policy, apps, incoming.batch, context, incoming.raw)
    case Ok(_) => Validated(context, apps)
    case Err(e) => Rejected(e)
  }

  /** The context after registration: the device, and a token if the client sent none. */
  function Filled(context: Context, apps: Apps.Table, id: DeviceId): Context {
    context.(deviceId := Some(id),
             apiToken := if context.apiToken.None? then Apps.TokenIn(apps, context.appId) else context.apiToken)
  }

  function PlainResult(event: Event): EventResult {
    EventResult(event.id, None)
  }

  function ResultsFor(incoming: Incoming, context: Context): seq<EventResult> {
    match FirstRegister(incoming.batch.events)
    case None => Mapped(PlainResult, incoming.batch.events)
    case Some(i) =>
      if context.deviceId.None? then []
      else [EventResult(incoming.batch.events[i].id,
                        Some(RegistrationData(context.apiToken, context.deviceId.value.ciphertext)))]
  }

  function RecordFor(incoming: Incoming, context: Context, order: seq<Event>, createdAt: int): Record {
    Record(RoutingKey(context), ProtoOf(incoming.batch, order, context, createdAt))
  }

  // ---------------------------------------------------------------------------
  // Steps
  // ---------------------------------------------------------------------------

  ghost predicate Enabled(s: Sys, l: Label) {
    l.Arrive? || l.Refresh? ||
    (l.r < |s.requests| &&
     var Request(incoming, stage) := s.requests[l.r];
     match l
     case Admit(_) => stage.Arrived?
     case Check(_) => stage.Admitted?
     case Read(_, _, _, _) => stage.Validated? && NeedsDevice(incoming, stage.context)
     case Write(_, _) => stage.Held?
     case GiveUp(_) => stage.Validated? && NeedsDevice(incoming, stage.context)
     case Respond(_) => stage.Identified? || (stage.Validated? && !NeedsDevice(incoming, stage.context))
     case Publish(_, order, _) => stage.Resolved? && IsOrdering(incoming.batch.events, order)
     case Resolve(_, _) => stage.Sent?
     case _ => false)
  }

  ghost function NextStage(cfg: Config, s: Sys, l: Label): Stage
    requires Enabled(s, l) && !l.Arrive? && !l.Refresh?
  {
    var Request(incoming, stage) := s.requests[l.r];
    match l
    case Admit(_) => StageOfAdmit(cfg, incoming)
    case Check(_) => StageOfCheck(cfg, s.apps, incoming, stage.context)
    case Read(r, fault, generated, nonce) =>
      var found := Get(s.registration.table, Reg.KeyFor(InputOf(incoming)), fault);
      var cleartext := if found.Some? then found.value else Uuid.Print(generated);
      Held(stage.context, stage.seen, Enveloped(cfg.aead, nonce, cleartext))
    case Write(_, _) => Identified(stage.context, stage.seen, stage.id)
    case GiveUp(_) => Rejected(ServiceUnavailable)
    case Respond(_) =>
      var context :=
        if !Registers(incoming) then stage.context
        else Filled(stage.context, s.apps, if stage.Identified? then stage.id else stage.context.deviceId.value);
      Resolved(context, stage.seen, ResultsFor(incoming, context))
    case Publish(_, order, createdAt) =>
      Sent(stage.context, stage.seen, stage.results, RecordFor(incoming, stage.context, order, createdAt))
    case Resolve(_, delivered) =>
      if delivered then Accepted(stage.context, stage.seen, stage.results, stage.record)
      else Undelivered(stage.context, stage.seen, stage.results, stage.record)
  }

  /** What the step is for the registration protocol, if anything. */
  ghost function RegLabel(cfg: Config, s: Sys, l: Label): Option<Reg.Label>
    requires Enabled(s, l)
  {
    match l
    case Check(r) =>
      var next := NextStage(cfg, s, l);
      if next.Validated? && NeedsDevice(s.requests[r].incoming, next.context)
      then Some(Reg.Begin(r, InputOf(s.requests[r].incoming))) else None
    case Read(r, fault, generated, _) => Some(Reg.Read(r, fault, generated))
    case Write(r, fault) => Some(Reg.Write(r, fault))
    case _ => None
  }

  /** Request `r` comes to a new stage, with all that goes with it. */
  function Moved(s: Sys, r: nat, next: Stage, regLabel: Option<Reg.Label>): Sys
    requires r < |s.requests|
  {
    Sys(
      s.apps,
      if regLabel.Some? then Reg.Step(s.registration, regLabel.value) else s.registration,
      if next.Sent? then s.log + [Entry(r, next.record)] else s.log,
      s.counter + if next.Accepted? then |next.results| else 0,
      s.requests[r := Request(s.requests[r].incoming, next)]
    )
  }

  ghost function Step(cfg: Config, s: Sys, l: Label): Sys {
    if !Enabled(s, l) then s
    else if l.Arrive? then s.(requests := s.requests + [Request(l.incoming, Arrived)])
    else if l.Refresh? then s.(apps := Apps.Refreshed(s.apps, l.refresh))
    else Moved(s, l.r, NextStage(cfg, s, l), RegLabel(cfg, s, l))
  }

  ghost function Exec(cfg: Config, s: Sys, run: seq<Label>): Sys {
    if run == [] then s else Step(cfg, Exec(cfg, s, run[..|run| - 1]), run[|run| - 1])
  }

  /** At the start nothing has arrived; the tables may hold anything. */
  ghost predicate Init(s: Sys) {
    s.requests == [] && s.log == [] && s.counter == 0 && s.registration.requests == map[]
  }

  // ---------------------------------------------------------------------------
  // The invariant
  // ---------------------------------------------------------------------------

  /** The origin check, on what the client sent: only web clients, and only with CORS. */
  ghost predicate OriginIsFine(cfg: Config, incoming: Incoming) {
    cfg.cors.Some? && OnWeb(incoming.batch.device) ==>
      incoming.headers.origin.Some? && Cors.Lists(cfg.cors.value, incoming.batch.appId, incoming.headers.origin.value)
  }

  lemma OriginAcceptedExactly(cfg: Config, incoming: Incoming)
    ensures var Context(appId, platform, _, _, _, origin) := ContextOf(cfg, incoming);
            Cors.OriginAccepted(cfg.cors, appId, platform, origin) <==> OriginIsFine(cfg, incoming)
  {
    PlatformExactly(incoming.batch.device);
  }

  /** The request passed the origin check and the validation against `seen`. */
  ghost predicate Cleared(cfg: Config, incoming: Incoming, seen: Apps.Table) {
    var Incoming(headers, batch, raw) := incoming;
    && OriginIsFine(cfg, incoming)
    && Apps.Admissible(cfg.policy, seen, batch, headers.apiToken, headers.signature, raw)
  }

  ghost predicate InPhase(reg: Reg.State, r: nat, incoming: Incoming, phase: Reg.Phase) {
    r in reg.requests && reg.requests[r] == Reg.Request(InputOf(incoming), phase)
  }

  /** The identity a registration ends with: the one of the header, or what the protocol gave. */
  ghost predicate IdentityOk(cfg: Config, reg: Reg.State, r: nat, incoming: Incoming, id: DeviceId) {
    && Agrees(cfg.aead, id)
    && match ContextOf(cfg, incoming).deviceId
       case Some(sent) => id == sent
       case None => InPhase(reg, r, incoming, Reg.Done(id.cleartext))
  }

  ghost predicate ResultsOk(
    cfg: Config, reg: Reg.State, r: nat, incoming: Incoming, context: Context, results: seq<EventResult>
  ) {
    && results == ResultsFor(incoming, context)
    && (if Registers(incoming)
        then context.deviceId.Some? && IdentityOk(cfg, reg, r, incoming, context.deviceId.value)
             && context == ContextOf(cfg, incoming).(deviceId := context.deviceId, apiToken := context.apiToken)
             && (incoming.headers.apiToken.Some? ==> context.apiToken == incoming.headers.apiToken)
        else context == ContextOf(cfg, incoming))
  }

  ghost predicate RecordOk(incoming: Incoming, context: Context, record: Record) {
    exists order, createdAt ::
      IsOrdering(incoming.batch.events, order) && record == RecordFor(incoming, context, order, createdAt)
  }

  ghost predicate PublishedOk(cfg: Config, reg: Reg.State, r: nat, incoming: Incoming, stage: Stage)
    requires stage.Sent? || stage.Accepted? || stage.Undelivered?
  {
    && Cleared(cfg, incoming, stage.seen)
    && ResultsOk(cfg, reg, r, incoming, stage.context, stage.results)
    && RecordOk(incoming, stage.context, stage.record)
  }

  ghost predicate StageOk(cfg: Config, reg: Reg.State, r: nat, request: Request) {
    var incoming := request.incoming;
    match request.stage
    case Arrived => r !in reg.requests
    case Admitted(context) =>
      && context == ContextOf(cfg, incoming)
      && OriginIsFine(cfg, incoming)
      && r !in reg.requests
    case Validated(context, seen) =>
      && context == ContextOf(cfg, incoming)
      && Cleared(cfg, incoming, seen)
      && (NeedsDevice(incoming, context) ==> InPhase(reg, r, incoming, Reg.Waiting))
    case Held(context, seen, id) =>
      && context == ContextOf(cfg, incoming) && NeedsDevice(incoming, context)
      && Cleared(cfg, incoming, seen)
      && Agrees(cfg.aead, id) && InPhase(reg, r, incoming, Reg.Holding(id.cleartext))
    case Identified(context, seen, id) =>
      && context == ContextOf(cfg, incoming) && NeedsDevice(incoming, context)
      && Cleared(cfg, incoming, seen)
      && Agrees(cfg.aead, id) && InPhase(reg, r, incoming, Reg.Done(id.cleartext))
    case Resolved(context, seen, results) =>
      && Cleared(cfg, incoming, seen)
      && ResultsOk(cfg, reg, r, incoming, context, results)
    case Rejected(_) => true
    case Aborted => true
    case _ => PublishedOk(cfg, reg, r, incoming, request.stage)
  }

  predicate IsPublished(stage: Stage) {
    stage.Sent? || stage.Accepted? || stage.Undelivered?
  }

  /** How many results a request has been answered with. */
  function Answered(request: Request): nat {
    if request.stage.Accepted? then |request.stage.results| else 0
  }

  function TotalAnswered(requests: seq<Request>): nat {
    if requests == [] then 0
    else TotalAnswered(requests[..|requests| - 1]) + Answered(requests[|requests| - 1])
  }

  ghost predicate EntryOk(requests: seq<Request>, e: Entry) {
    && e.request < |requests|
    && IsPublished(requests[e.request].stage)
    && requests[e.request].stage.record == e.record
  }

  /** Each record in the log belongs to a request of its own that was published with it, and
      each published request has its record in the log. */
  ghost predicate LogOk(s: Sys) {
    && (forall i :: 0 <= i < |s.log| ==> EntryOk(s.requests, s.log[i]))
    && (forall i, j :: 0 <= i < j < |s.log| ==> s.log[i].request != s.log[j].request)
    && (forall r: nat :: r < |s.requests| && IsPublished(s.requests[r].stage) ==>
          Entry(r, s.requests[r].stage.record) in s.log)
  }

  ghost predicate Inv(cfg: Config, s: Sys) {
    && (forall r: nat :: r < |s.requests| ==> StageOk(cfg, s.registration, r, s.requests[r]))
    && (forall r :: r in s.registration.requests ==> r < |s.requests|)
    && LogOk(s)
    && s.counter == TotalAnswered(s.requests)
  }

  lemma ReadStageOk(cfg: Config, s: Sys, l: Label)
    requires Inv(cfg, s) && Enabled(s, l) && l.Read?
    ensures StageOk(cfg, Step(cfg, s, l).registration, l.r, Step(cfg, s, l).requests[l.r])
  {
    var incoming := s.requests[l.r].incoming;
    var reg := s.registration;
    assert StageOk(cfg, reg, l.r, s.requests[l.r]);
    var found := Get(reg.table, Reg.KeyFor(InputOf(incoming)), l.readFault);
    if found.Some? {
      EnvelopedAgrees(cfg.aead, l.nonce, reg.table[Reg.KeyFor(InputOf(incoming)).value]);
    } else {
      EnvelopedAgrees(cfg.aead, l.nonce, l.generated);
    }
    assert Reg.Enabled(reg, Reg.Read(l.r, l.readFault, l.generated));
  }

  lemma RespondStageOk(cfg: Config, s: Sys, l: Label)
    requires Inv(cfg, s) && Enabled(s, l) && l.Respond?
    ensures StageOk(cfg, Step(cfg, s, l).registration, l.r, Step(cfg, s, l).requests[l.r])
  {
    assert StageOk(cfg, s.registration, l.r, s.requests[l.r]);
  }

  lemma CheckStageOk(cfg: Config, s: Sys, l: Label)
    requires Inv(cfg, s) && Enabled(s, l) && l.Check?
    ensures StageOk(cfg, Step(cfg, s, l).registration, l.r, Step(cfg, s, l).requests[l.r])
  {
    var Request(incoming, stage) := s.requests[l.r];
    assert StageOk(cfg, s.registration, l.r, s.requests[l.r]);
    Apps.AcceptsExactlyAdmissible(cfg.policy, s.apps, incoming.batch, stage.context, incoming.raw);
  }

  lemma WriteStageOk(cfg: Config, s: Sys, l: Label)
    requires Inv(cfg, s) && Enabled(s, l) && l.Write?
    ensures StageOk(cfg, Step(cfg, s, l).registration, l.r, Step(cfg, s, l).requests[l.r])
  {
    assert StageOk(cfg, s.registration, l.r, s.requests[l.r]);
    assert Reg.Enabled(s.registration, Reg.Write(l.r, l.writeFault));
  }

  lemma PublishStageOk(cfg: Config, s: Sys, l: Label)
    requires Inv(cfg, s) && Enabled(s, l) && l.Publish?
    ensures StageOk(cfg, Step(cfg, s, l).registration, l.r, Step(cfg, s, l).requests[l.r])
  {
    var Request(incoming, stage) := s.requests[l.r];
    assert StageOk(cfg, s.registration, l.r, s.requests[l.r]);
    assert RecordOk(incoming, stage.context, RecordFor(incoming, stage.context, l.order, l.createdAt));
  }

  lemma OtherMoveOk(cfg: Config, s: Sys, l: Label)
    requires Inv(cfg, s) && Enabled(s, l) && (l.GiveUp? || l.Resolve?)
    ensures StageOk(cfg, Step(cfg, s, l).registration, l.r, Step(cfg, s, l).requests[l.r])
  {
    assert StageOk(cfg, s.registration, l.r, s.requests[l.r]);
  }

  lemma AdmitStageOk(cfg: Config, s: Sys, l: Label)
    requires Inv(cfg, s) && Enabled(s, l) && l.Admit?
    ensures StageOk(cfg, Step(cfg, s, l).registration, l.r, Step(cfg, s, l).requests[l.r])
  {
    assert StageOk(cfg, s.registration, l.r, s.requests[l.r]);
    OriginAcceptedExactly(cfg, s.requests[l.r].incoming);
  }

  /** The request that moves is in order afterwards. */
  lemma NextStageOk(cfg: Config, s: Sys, l: Label)
    requires Inv(cfg, s) && Enabled(s, l) && !l.Arrive? && !l.Refresh?
    ensures StageOk(cfg, Step(cfg, s, l).registration, l.r, Step(cfg, s, l).requests[l.r])
  {
    match l
    case Read(_, _, _, _) => ReadStageOk(cfg, s, l);
    case Write(_, _) => WriteStageOk(cfg, s, l);
    case Respond(_) => RespondStageOk(cfg, s, l);
    case Check(_) => CheckStageOk(cfg, s, l);
    case Publish(_, _, _) => PublishStageOk(cfg, s, l);
    case Admit(_) => AdmitStageOk(cfg, s, l);
    case _ => OtherMoveOk(cfg, s, l);
  }

  /** The others do not notice. */
  lemma OtherStageOk(cfg: Config, reg: Reg.State, l: Reg.Label, r: nat, request: Request)
    requires StageOk(cfg, reg, r, request) && l.r != r
    ensures StageOk(cfg, Reg.Step(reg, l), r, request)
  {
    assert r in reg.requests <==> r in Reg.Step(reg, l).requests;
  }

  lemma {:induction false} TotalAfterUpdate(requests: seq<Request>, r: nat, request: Request)
    requires r < |requests|
    ensures TotalAnswered(requests[r := request]) + Answered(requests[r]) == TotalAnswered(requests) + Answered(request)
  {
    var n := |requests| - 1;
    if r < n {
      TotalAfterUpdate(requests[..n], r, request);
      assert requests[r := request][..n] == requests[..n][r := request];
    } else {
      assert requests[r := request][..n] == requests[..n];
    }
  }

  /** A request is published once, and keeps its record. */
  ghost predicate PublishesOnce(before: Stage, next: Stage) {
    && !before.Accepted?
    && (next.Sent? ==> !IsPublished(before))
    && (IsPublished(before) ==> IsPublished(next))
    && (IsPublished(next) && !next.Sent? ==> IsPublished(before) && next.record == before.record)
  }

  lemma NextPublishesOnce(cfg: Config, s: Sys, l: Label)
    requires Enabled(s, l) && !l.Arrive? && !l.Refresh?
    ensures PublishesOnce(s.requests[l.r].stage, NextStage(cfg, s, l))
  {
  }

  lemma MovedKeepsLog(s: Sys, r: nat, next: Stage, regLabel: Option<Reg.Label>)
    requires r < |s.requests| && LogOk(s) && PublishesOnce(s.requests[r].stage, next)
    ensures LogOk(Moved(s, r, next, regLabel))
  {
    var t := Moved(s, r, next, regLabel);
    if next.Sent? {
      assert t.log[|s.log|] == Entry(r, next.record);
    }
    forall i | 0 <= i < |t.log| ensures EntryOk(t.requests, t.log[i]) {
      if i < |s.log| {
        assert t.log[i] == s.log[i] && EntryOk(s.requests, s.log[i]);
      }
    }
    forall i, j | 0 <= i < j < |t.log| ensures t.log[i].request != t.log[j].request {
      assert t.log[i] == s.log[i] && EntryOk(s.requests, s.log[i]);
    }
    forall i: nat | i < |t.requests| && IsPublished(t.requests[i].stage)
      ensures Entry(i, t.requests[i].stage.record) in t.log
    {
      if i != r || !next.Sent? {
        assert Entry(i, s.requests[i].stage.record) in s.log;
      }
    }
  }

  lemma MovedKeepsStages(cfg: Config, s: Sys, r: nat, next: Stage, regLabel: Option<Reg.Label>)
    requires Inv(cfg, s) && r < |s.requests| && (regLabel.Some? ==> regLabel.value.r == r)
    requires var t := Moved(s, r, next, regLabel); StageOk(cfg, t.registration, r, t.requests[r])
    ensures var t := Moved(s, r, next, regLabel);
            && (forall i: nat :: i < |t.requests| ==> StageOk(cfg, t.registration, i, t.requests[i]))
            && (forall i :: i in t.registration.requests ==> i < |t.requests|)
  {
    var t := Moved(s, r, next, regLabel);
    forall i: nat | i < |t.requests| ensures StageOk(cfg, t.registration, i, t.requests[i]) {
      if i != r && regLabel.Some? {
        OtherStageOk(cfg, s.registration, regLabel.value, i, s.requests[i]);
      }
    }
  }

  lemma StepKeepsInv(cfg: Config, s: Sys, l: Label)
    requires Inv(cfg, s)
    ensures Inv(cfg, Step(cfg, s, l))
  {
    if !Enabled(s, l) || l.Refresh? {
    } else if l.Arrive? {
      ArriveKeepsInv(cfg, s, l);
    } else {
      var next, regLabel := NextStage(cfg, s, l), RegLabel(cfg, s, l);
      NextStageOk(cfg, s, l);
      NextPublishesOnce(cfg, s, l);
      MovedKeepsStages(cfg, s, l.r, next, regLabel);
      MovedKeepsLog(s, l.r, next, regLabel);
      TotalAfterUpdate(s.requests, l.r, Request(s.requests[l.r].incoming, next));
    }
  }

  lemma ArriveKeepsInv(cfg: Config, s: Sys, l: Label)
    requires Inv(cfg, s) && l.Arrive?
    ensures Inv(cfg, Step(cfg, s, l))
  {
    var t := Step(cfg, s, l);
    assert t.requests[..|s.requests|] == s.requests;
    forall r: nat | r < |t.requests| ensures StageOk(cfg, t.registration, r, t.requests[r]) {
      assert r < |s.requests| ==> t.requests[r] == s.requests[r];
    }
  }

  lemma {:induction false} RunKeepsInv(cfg: Config, s: Sys, run: seq<Label>)
    requires Inv(cfg, s)
    ensures Inv(cfg, Exec(cfg, s, run))
  {
    if run != [] {
      RunKeepsInv(cfg, s, run[..|run| - 1]);
      StepKeepsInv(cfg, Exec(cfg, s, run[..|run| - 1]), run[|run| - 1]);
    }
  }

  /** From the start, every interleaving keeps the invariant. */
  lemma ReachableInv(cfg: Config, s: Sys, run: seq<Label>)
    requires Init(s)
    ensures Inv(cfg, Exec(cfg, s, run))
  {
    RunKeepsInv(cfg, s, run);
  }
}
