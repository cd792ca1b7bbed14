/** What a run of the gateway does to the device table, to Kafka and to web clients, told by the
    batches and headers alone. */
module Outcomes {
  import opened Wrappers
  import opened Text
  import opened Errors
  import opened Encryption
  import opened RequestContext
  import opened EventBatch
  import opened IfaMatching
  import opened Pipeline
  import opened Guarantees
  import Apps = AppRegistry
  import Cors
  import Reg = Registration
  import Timestamp
  import Uuid

  // ---------------------------------------------------------------------------
  // The device table
  // ---------------------------------------------------------------------------

  /** Every registration under way asks for what the batch of its request says. */
  ghost predicate AsksForItsBatch(s: Sys) {
    forall r :: r in s.registration.requests ==>
      r < |s.requests| && AsksFor(s.registration.requests[r].input, s.requests[r])
  }

  predicate AsksFor(input: Reg.Input, request: Request) {
    var Batch(appId, _, device, _) := request.incoming.batch;
    input.appId == appId && input.ifa == device.ifa && input.trackingEnabled == device.ifaTrackingEnabled
  }

  lemma InputAfterStep(cfg: Config, s: Sys, l: Label, r: nat)
    requires r in Step(cfg, s, l).registration.requests
    ensures var input := Step(cfg, s, l).registration.requests[r].input;
            || (r in s.registration.requests && input == s.registration.requests[r].input)
            || (r < |s.requests| && input == InputOf(s.requests[r].incoming))
  {
  }

  lemma StepAsks(cfg: Config, s: Sys, l: Label)
    requires AsksForItsBatch(s)
    ensures AsksForItsBatch(Step(cfg, s, l))
  {
    var t := Step(cfg, s, l);
    forall r | r in t.registration.requests
      ensures r < |t.requests| && AsksFor(t.registration.requests[r].input, t.requests[r])
    {
      InputAfterStep(cfg, s, l, r);
      assert r < |s.requests|;
      IncomingIsKept(cfg, s, l, r);
    }
  }

  lemma {:induction false} RegistrationsAskForBatches(cfg: Config, s: Sys, run: seq<Label>)
    requires Init(s)
    ensures AsksForItsBatch(Exec(cfg, s, run))
  {
    if run != [] {
      RegistrationsAskForBatches(cfg, s, run[..|run| - 1]);
      StepAsks(cfg, Exec(cfg, s, run[..|run| - 1]), run[|run| - 1]);
    }
  }

  /** A key that the table gained is named by the batch of some request, whose device allows
      tracking and sent an advertising id other than nil. */
  lemma KeysAreNamedByBatches(cfg: Config, s: Sys, run: seq<Label>, k: Key)
    requires Init(s) && k in Exec(cfg, s, run).registration.table && k !in s.registration.table
    ensures var requests := Exec(cfg, s, run).requests;
            exists r :: 0 <= r < |requests| && Identifies(requests[r].incoming.batch, k)
  {
    var t := Exec(cfg, s, run);
    GatewayRunsProtocol(cfg, s, run);
    Reg.KeysComeFromTrackedDevices(s.registration, Projected(cfg, s, run), k);
    RegistrationsAskForBatches(cfg, s, run);
    var r :| r in t.registration.requests && Reg.KeyFor(t.registration.requests[r].input) == Some(k);
    assert t.registration.requests[r].input == InputOf(t.requests[r].incoming);
    KeyOfBatch(t.requests[r].incoming, k);
  }

  /** What a lookup for this batch finds. */
  ghost predicate Finds(table: Table, batch: Batch, v: Uuid.Uuid) {
    exists k :: Identifies(batch, k) && k in table && table[k] == v
  }

  lemma GetExactly(table: Table, incoming: Incoming, fault: ReadFault, found: Str)
    ensures Get(table, Reg.KeyFor(InputOf(incoming)), fault) == Some(found) <==>
      fault == NoFault && exists v :: Finds(table, incoming.batch, v) && found == Uuid.Print(v)
  {
    var key := Reg.KeyFor(InputOf(incoming));
    forall k ensures key == Some(k) <==> Identifies(incoming.batch, k) {
      KeyOfBatch(incoming, k);
    }
    if key.Some? && key.value in table {
      assert Finds(table, incoming.batch, table[key.value]);
    }
  }

  lemma HeldAfterRead(cfg: Config, s: Sys, l: Label)
    requires Inv(cfg, s) && l.Read? && Enabled(s, l)
    ensures var t := Step(cfg, s, l);
            && t.registration.table == s.registration.table
            && l.r < |t.requests| && t.requests[l.r].stage.Held?
            && var id := t.requests[l.r].stage.id;
               var found := Get(s.registration.table, Reg.KeyFor(InputOf(s.requests[l.r].incoming)), l.readFault);
               && id.cleartext == (if found.Some? then found.value else Uuid.Print(l.generated))
               && Agrees(cfg.aead, id)
  {
    ReadStageOk(cfg, s, l);
  }

  /** The lookup of a registration: it holds the id in the table for what its batch names, if
      the read succeeds, and the generated one otherwise, in an envelope that decrypts to it. */
  lemma LookupHolds(cfg: Config, s: Sys, l: Label)
    requires Inv(cfg, s) && l.Read? && Enabled(s, l)
    ensures var t := Step(cfg, s, l);
            && t.registration.table == s.registration.table
            && l.r < |t.requests| && t.requests[l.r].stage.Held?
            && Holds(cfg, s.registration.table, s.requests[l.r].incoming.batch, l, t.requests[l.r].stage.id)
  {
    var incoming := s.requests[l.r].incoming;
    var found := Get(s.registration.table, Reg.KeyFor(InputOf(incoming)), l.readFault);
    HeldAfterRead(cfg, s, l);
    forall v | l.readFault == NoFault && Finds(s.registration.table, incoming.batch, v)
      ensures found == Some(Uuid.Print(v))
    {
      GetExactly(s.registration.table, incoming, l.readFault, Uuid.Print(v));
    }
    if found.Some? {
      GetExactly(s.registration.table, incoming, l.readFault, found.value);
    }
  }

  ghost predicate Holds(cfg: Config, table: Table, batch: Batch, l: Label, id: DeviceId)
    requires l.Read?
  {
    && (forall v :: l.readFault == NoFault && Finds(table, batch, v) ==> id.cleartext == Uuid.Print(v))
    && (l.readFault != NoFault || (forall v :: !Finds(table, batch, v)) ==> id.cleartext == Uuid.Print(l.generated))
    && Unwrap(cfg.aead, id.ciphertext) == Clear(id.cleartext)
  }

  lemma TableAfterWrite(cfg: Config, s: Sys, l: Label)
    requires Inv(cfg, s) && l.Write? && Enabled(s, l)
    ensures var Request(incoming, stage) := s.requests[l.r];
            Step(cfg, s, l).registration.table ==
              Put(s.registration.table, Reg.KeyFor(InputOf(incoming)), stage.id.cleartext, l.writeFault)
  {
    assert StageOk(cfg, s.registration, l.r, s.requests[l.r]);
    assert Step(cfg, s, l).registration == Reg.Step(s.registration, Reg.Write(l.r, l.writeFault));
  }

  lemma TableAfterOther(cfg: Config, s: Sys, l: Label)
    requires !(l.Write? && Enabled(s, l))
    ensures Step(cfg, s, l).registration.table == s.registration.table
  {
    if Enabled(s, l) && !l.Arrive? && !l.Refresh? {
      var regLabel := RegLabel(cfg, s, l);
      assert regLabel.Some? ==> !regLabel.value.Write?;
      assert Step(cfg, s, l).registration
          == if regLabel.Some? then Reg.Step(s.registration, regLabel.value) else s.registration;
    }
  }

  /** A step other than a write leaves the table alone; a write binds what the batch names to
      the id that the registration holds, unless it is lost. */
  lemma OnlyWritesBind(cfg: Config, s: Sys, l: Label, k: Key)
    requires Inv(cfg, s)
    ensures var before, after := s.registration.table, Step(cfg, s, l).registration.table;
            if l.Write? && Enabled(s, l) && l.writeFault != Lost && Identifies(s.requests[l.r].incoming.batch, k)
            then
              var id := Uuid.Parse(s.requests[l.r].stage.id.cleartext);
              after == if id.Some? then before[k := id.value] else before
            else (k in after <==> k in before) && (k in after ==> after[k] == before[k])
  {
    if l.Write? && Enabled(s, l) {
      TableAfterWrite(cfg, s, l);
      KeyOfBatch(s.requests[l.r].incoming, k);
    } else {
      TableAfterOther(cfg, s, l);
    }
  }

  lemma HeldIdIsPrinted(cfg: Config, s: Sys, run: seq<Label>, r: nat) returns (u: Uuid.Uuid)
    requires Init(s) && r < |Exec(cfg, s, run).requests| && Exec(cfg, s, run).requests[r].stage.Held?
    ensures Exec(cfg, s, run).requests[r].stage.id.cleartext == Uuid.Print(u)
  {
    var t := Exec(cfg, s, run);
    ReachableInv(cfg, s, run);
    assert StageOk(cfg, t.registration, r, t.requests[r]);
    GatewayRunsProtocol(cfg, s, run);
    Reg.IdsArePrinted(s.registration, Projected(cfg, s, run));
    u :| t.registration.requests[r].phase.id == Uuid.Print(u);
  }

  /** In a run, a write that is not lost binds the key that the batch names to the very id that
      the registration goes on to answer with, and touches no other key. */
  lemma WriteBindsAnsweredId(cfg: Config, s: Sys, run: seq<Label>, r: nat, fault: WriteFault, k: Key)
    returns (u: Uuid.Uuid)
    requires Init(s) && Enabled(Exec(cfg, s, run), Write(r, fault)) && fault != Lost
    requires Identifies(Exec(cfg, s, run).requests[r].incoming.batch, k)
    ensures var before := Exec(cfg, s, run);
            var after := Step(cfg, before, Write(r, fault));
            && after.registration.table == before.registration.table[k := u]
            && after.requests[r].stage.Identified?
            && after.requests[r].stage.id.cleartext == Uuid.Print(u)
            && Unwrap(cfg.aead, after.requests[r].stage.id.ciphertext) == Clear(Uuid.Print(u))
  {
    var before := Exec(cfg, s, run);
    ReachableInv(cfg, s, run);
    assert StageOk(cfg, before.registration, r, before.requests[r]);
    u := HeldIdIsPrinted(cfg, s, run, r);
    Uuid.ParsePrint(u);
    OnlyWritesBind(cfg, before, Write(r, fault), k);
  }

  lemma TableKeptWithoutName(cfg: Config, s: Sys, l: Label)
    requires Inv(cfg, s)
    requires l.Write? && Enabled(s, l) ==> forall k :: !Identifies(s.requests[l.r].incoming.batch, k)
    ensures Step(cfg, s, l).registration.table == s.registration.table
  {
    var before, after := s.registration.table, Step(cfg, s, l).registration.table;
    forall k ensures (k in after <==> k in before) && (k in after ==> after[k] == before[k]) {
      OnlyWritesBind(cfg, s, l, k);
    }
    assert after == before;
  }

  /** A device that forbids tracking leaves no trace in the table and gets nothing out of it. */
  lemma UntrackedIsLeftOut(cfg: Config, s: Sys, l: Label)
    requires Inv(cfg, s) && !l.Arrive? && !l.Refresh? && Enabled(s, l)
    requires !s.requests[l.r].incoming.batch.device.ifaTrackingEnabled
    ensures Step(cfg, s, l).registration.table == s.registration.table
    ensures l.Read? ==> Step(cfg, s, l).requests[l.r].stage.id.cleartext == Uuid.Print(l.generated)
  {
    TableKeptWithoutName(cfg, s, l);
    if l.Read? {
      LookupHolds(cfg, s, l);
    }
  }

  // ---------------------------------------------------------------------------
  // Web clients
  // ---------------------------------------------------------------------------

  /** The client says it is on the web, CORS is on, and its application does not list the
      origin it sent, if it sent one. */
  ghost predicate FromForeignOrigin(cfg: Config, origins: seq<Cors.OriginConfig>, incoming: Incoming) {
    && cfg.cors.Some?
    && incoming.batch.device.platform == Some(Ascii("web"))
    && !(incoming.headers.origin.Some? && Cors.Allowed(origins, incoming.batch.appId, incoming.headers.origin.value))
  }

  ghost predicate OriginVerdictOk(cfg: Config, request: Request) {
    || request.stage.Arrived? || request.stage.Aborted?
    || (request.stage == Rejected(UnknownOrigin) <==> !OriginIsFine(cfg, request.incoming))
  }

  lemma VerdictOfAdmit(cfg: Config, s: Sys, r: nat)
    requires Enabled(s, Admit(r))
    ensures var next := NextStage(cfg, s, Admit(r));
            next.Aborted? || (next == Rejected(UnknownOrigin) <==> !OriginIsFine(cfg, s.requests[r].incoming))
  {
    OriginAcceptedExactly(cfg, s.requests[r].incoming);
  }

  lemma NoVerdictElsewhere(cfg: Config, s: Sys, l: Label)
    requires !l.Arrive? && !l.Refresh? && !l.Admit? && Enabled(s, l)
    requires StageOk(cfg, s.registration, l.r, s.requests[l.r])
    ensures NextStage(cfg, s, l) != Rejected(UnknownOrigin) && !NextStage(cfg, s, l).Arrived?
  {
    if l.Check? {
      FailsAfterCheck(cfg, s, l.r, UnknownOrigin);
    }
  }

  lemma VerdictAfterOwnStep(cfg: Config, s: Sys, l: Label)
    requires !l.Arrive? && !l.Refresh? && Enabled(s, l) && StageOk(cfg, s.registration, l.r, s.requests[l.r])
    requires OriginVerdictOk(cfg, s.requests[l.r])
    ensures OriginVerdictOk(cfg, Request(s.requests[l.r].incoming, NextStage(cfg, s, l)))
  {
    if l.Admit? {
      VerdictOfAdmit(cfg, s, l.r);
    } else {
      NoVerdictElsewhere(cfg, s, l);
    }
  }

  lemma VerdictAfterStep(cfg: Config, s: Sys, l: Label, r: nat)
    requires Inv(cfg, s) && r < |Step(cfg, s, l).requests|
    requires r < |s.requests| ==> OriginVerdictOk(cfg, s.requests[r])
    ensures OriginVerdictOk(cfg, Step(cfg, s, l).requests[r])
  {
    if Enabled(s, l) && Moves(l, r) {
      assert StageOk(cfg, s.registration, r, s.requests[r]);
      VerdictAfterOwnStep(cfg, s, l);
    } else {
      StaysOnOtherStep(cfg, s, l, r);
      if r < |s.requests| {
        IncomingIsKept(cfg, s, l, r);
      }
    }
  }

  lemma {:induction false} OriginVerdict(cfg: Config, s: Sys, run: seq<Label>, r: nat)
    requires Init(s) && r < |Exec(cfg, s, run).requests|
    ensures OriginVerdictOk(cfg, Exec(cfg, s, run).requests[r])
  {
    if run != [] {
      var init := run[..|run| - 1];
      if r < |Exec(cfg, s, init).requests| {
        OriginVerdict(cfg, s, init, r);
      }
      ReachableInv(cfg, s, init);
      VerdictAfterStep(cfg, Exec(cfg, s, init), run[|run| - 1], r);
    }
  }

  /** Refused for its origin is exactly a web request from an origin that is not listed, once
      it was looked at; never one of another platform, and none without CORS. */
  lemma UnknownOriginExactly(cfg: Config, origins: seq<Cors.OriginConfig>, s: Sys, run: seq<Label>, r: nat)
    requires Init(s) && r < |Exec(cfg, s, run).requests|
    requires cfg.cors.Some? ==> Cors.Indexes(cfg.cors.value, origins)
    ensures var Request(incoming, stage) := Exec(cfg, s, run).requests[r];
            stage == Rejected(UnknownOrigin) <==>
              !stage.Arrived? && !TooShort(incoming.headers) && FromForeignOrigin(cfg, origins, incoming)
  {
    OriginVerdict(cfg, s, run, r);
    AbortsExactlyOnPanic(cfg, s, run, r);
    var incoming := Exec(cfg, s, run).requests[r].incoming;
    if cfg.cors.Some? && incoming.headers.origin.Some? {
      Cors.ValidExactly(cfg.cors.value, origins, incoming.batch.appId, incoming.headers.origin);
    }
  }

  // ---------------------------------------------------------------------------
  // What is published
  // ---------------------------------------------------------------------------

  /** Recipient and Kafka key by the device id header: the device it decrypts to; without one
      the client's own recipient and no key, unless the batch registers, which makes a device. */
  ghost predicate AddressedRightly(cfg: Config, incoming: Incoming, record: Record) {
    var Incoming(headers, batch, _) := incoming;
    var recipient := record.proto.header.recipientId;
    if headers.deviceId.Some? && Unwrap(cfg.aead, headers.deviceId.value).Clear? then
      && recipient == Some(Unwrap(cfg.aead, headers.deviceId.value).text)
      && record.key == Some(batch.appId + Ascii("|") + recipient.value)
    else if HasRegister(batch) then
      && recipient.Some?
      && record.key == Some(batch.appId + Ascii("|") + recipient.value)
    else recipient == batch.recipientId && record.key.None?
  }

  lemma RecordIsAddressed(cfg: Config, reg: Reg.State, r: nat, incoming: Incoming, stage: Stage)
    requires IsPublished(stage) && PublishedOk(cfg, reg, r, incoming, stage)
    ensures AddressedRightly(cfg, incoming, stage.record)
  {
    var order, createdAt :|
      IsOrdering(incoming.batch.events, order) && stage.record == RecordFor(incoming, stage.context, order, createdAt);
    PublishedHeader(incoming.batch, order, stage.context, createdAt);
    if stage.record.key.Some? {
      RoutingKeyExactly(stage.context, stage.record.key.value);
    }
    if stage.context.deviceId.Some? {
      RoutingKeyExactly(stage.context, stage.context.appId + Ascii("|") + stage.context.deviceId.value.cleartext);
    }
  }

  /** The record is that batch: each event with all its fields, in the order of time, the
      device as it came, the application as the source. */
  ghost predicate IsTheBatch(batch: Batch, order: seq<Event>, proto: ProtoBatch) {
    && multiset(order) == multiset(batch.events)
    && |proto.events| == |order|
    && (forall j :: 0 <= j < |order| ==> Conveys(proto.events[j], order[j]))
    && (forall a, b :: 0 <= a < b < |order| ==> order[a].timestamp <= order[b].timestamp)
    && proto.device == batch.device
    && proto.header.source == batch.appId
    && proto.header.type_ == Ascii("events.SDKEventBatch")
    && proto.header.feed == Ascii("xorc")
  }

  /** Whatever is in the log is the batch of its request, and addressed as its headers say. */
  lemma PublishedIsTheBatch(cfg: Config, s: Sys, run: seq<Label>, i: nat) returns (order: seq<Event>)
    requires Init(s) && i < |Exec(cfg, s, run).log|
    ensures var t := Exec(cfg, s, run);
            var Entry(r, record) := t.log[i];
            && r < |t.requests|
            && IsTheBatch(t.requests[r].incoming.batch, order, record.proto)
            && AddressedRightly(cfg, t.requests[r].incoming, record)
  {
    ReachableInv(cfg, s, run);
    var t := Exec(cfg, s, run);
    var Entry(r, record) := t.log[i];
    assert EntryOk(t.requests, t.log[i]);
    assert StageOk(cfg, t.registration, r, t.requests[r]);
    var Request(incoming, stage) := t.requests[r];
    RecordIsAddressed(cfg, t.registration, r, incoming, stage);
    order := OrderOf(incoming, stage.context, record);
  }

  lemma OrderOf(incoming: Incoming, context: Context, record: Record) returns (order: seq<Event>)
    requires RecordOk(incoming, context, record)
    ensures IsTheBatch(incoming.batch, order, record.proto)
  {
    var createdAt;
    order, createdAt :|
      IsOrdering(incoming.batch.events, order) && record == RecordFor(incoming, context, order, createdAt);
    PublishedInOrder(incoming.batch, order, context, createdAt);
    PublishedHeader(incoming.batch, order, context, createdAt);
  }

  // ---------------------------------------------------------------------------
  // Every request comes to an end
  // ---------------------------------------------------------------------------

  /** How many steps of its own a request can still take. */
  function StepsLeft(stage: Stage): nat {
    match stage
    case Arrived => 7
    case Admitted(_) => 6
    case Validated(_, _) => 5
    case Held(_, _, _) => 4
    case Identified(_, _, _) => 3
    case Resolved(_, _, _) => 2
    case Sent(_, _, _, _) => 1
    case _ => 0
  }

  /** Answered or aborted: nothing is left to do. */
  predicate Over(stage: Stage) {
    stage.Accepted? || stage.Undelivered? || stage.Rejected? || stage.Aborted?
  }

  /** A request that is not over can always go on, whatever the others do, and one that is over cannot. */
  lemma CanGoOnExactly(s: Sys, r: nat)
    requires r < |s.requests|
    ensures !Over(s.requests[r].stage) <==> exists l :: Moves(l, r) && Enabled(s, l)
  {
    var Request(incoming, stage) := s.requests[r];
    if !Over(stage) {
      var order := OrderingExists(incoming.batch.events);
      var l := match stage
        case Arrived => Admit(r)
        case Admitted(_) => Check(r)
        case Validated(context, _) => if NeedsDevice(incoming, context) then GiveUp(r) else Respond(r)
        case Held(_, _, _) => Write(r, Written)
        case Identified(_, _, _) => Respond(r)
        case Resolved(_, _, _) => Publish(r, order, 0)
        case _ => Resolve(r, true);
      assert Moves(l, r) && Enabled(s, l);
    }
  }

  lemma OwnStepAdvances(cfg: Config, s: Sys, l: Label)
    requires !l.Arrive? && !l.Refresh? && Enabled(s, l)
    ensures StepsLeft(NextStage(cfg, s, l)) < StepsLeft(s.requests[l.r].stage)
  {
  }

  /** How many steps request `r` took. */
  ghost function OwnSteps(cfg: Config, s: Sys, run: seq<Label>, r: nat): nat {
    if run == [] then 0
    else
      var init, l := run[..|run| - 1], run[|run| - 1];
      OwnSteps(cfg, s, init, r) + if Moves(l, r) && Enabled(Exec(cfg, s, init), l) then 1 else 0
  }

  function LeftFor(s: Sys, r: nat): nat {
    if r < |s.requests| then StepsLeft(s.requests[r].stage) else 7
  }

  lemma StepUsesUp(cfg: Config, s: Sys, l: Label, r: nat)
    ensures LeftFor(Step(cfg, s, l), r) + (if Moves(l, r) && Enabled(s, l) then 1 else 0) <= LeftFor(s, r)
  {
    if Moves(l, r) && Enabled(s, l) {
      OwnStepAdvances(cfg, s, l);
      var next, regLabel := NextStage(cfg, s, l), RegLabel(cfg, s, l);
      MovedStage(s, r, next, regLabel, r);
    } else {
      StaysOnOtherStep(cfg, s, l, r);
    }
  }

  /** No request takes more than seven steps, in any run. */
  lemma {:induction false} SevenStepsAtMost(cfg: Config, s: Sys, run: seq<Label>, r: nat)
    requires Init(s)
    ensures OwnSteps(cfg, s, run, r) + LeftFor(Exec(cfg, s, run), r) <= 7
  {
    if run != [] {
      var init := run[..|run| - 1];
      SevenStepsAtMost(cfg, s, init, r);
      StepUsesUp(cfg, Exec(cfg, s, init), run[|run| - 1], r);
    }
  }
}
