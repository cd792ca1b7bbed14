/** The request handler as the source writes it, one request at a time. Beside its real state
    it keeps the state of the pipeline model, and each of its calls is a run of that model. */
module Gateway {
  import opened Wrappers
  import opened Text
  import opened Errors
  import opened Encryption
  import opened RequestContext
  import opened EventBatch
  import opened IfaMatching
  import opened Pipeline
  import opened Guarantees
  import Apps = AppRegistry
  import Cors
  import Reg = Registration
  import Uuid

  /** What the world decides during one request. */
  datatype World = World(
    poolRefuses: bool,
    readFault: ReadFault,
    generated: Uuid.Uuid,
    nonce: Nonce,
    writeFault: WriteFault,
    createdAt: int,
    delivered: bool
  )

  type Answer = Result<seq<EventResult>, GatewayError>

  /** The answer a final stage stands for. */
  ghost predicate Answers(stage: Stage, answer: Answer) {
    match stage
    case Accepted(_, _, results, _) => answer == Ok(results)
    case Undelivered(_, _, _, _) => answer == Err(ServiceUnavailable)
    case Rejected(e) => answer == Err(e)
    case _ => false
  }

  class Handler {
    const cfg: Config
    const store: IfaStore
    const registry: Apps.Registry
    var published: seq<Record>
    var eventsCounter: nat

    ghost const initial: Sys
    ghost var trace: seq<Label>
    ghost var model: Sys

    /** The model state is one that the pipeline reaches from its start. */
    ghost predicate Reached()
      reads this
    {
      Init(initial) && model == Exec(cfg, initial, trace)
    }

    /** The real state is that of the model. */
    ghost predicate Valid()
      reads this, store, registry
    {
      && Reached()
      && registry.policy == cfg.policy
      && store.table == model.registration.table
      && registry.apps == model.apps
      && eventsCounter == model.counter
      && |published| == |model.log|
      && forall i :: 0 <= i < |published| ==> published[i] == model.log[i].record
    }

    constructor (cfg: Config, store: IfaStore, registry: Apps.Registry)
      requires registry.policy == cfg.policy
      ensures Valid() && trace == []
      ensures this.cfg == cfg && this.store == store && this.registry == registry
      ensures published == [] && eventsCounter == 0
    {
      this.cfg, this.store, this.registry := cfg, store, registry;
      published, eventsCounter, trace := [], 0, [];
      initial := Sys(registry.apps, Reg.State(store.table, map[]), [], 0, []);
      model := Sys(registry.apps, Reg.State(store.table, map[]), [], 0, []);
    }

    ghost method Take(l: Label)
      requires Reached()
      modifies this`model, this`trace
      ensures Reached() && model == Step(cfg, old(model), l) && trace == old(trace) + [l]
    {
      assert (trace + [l])[..|trace|] == trace;
      model, trace := Step(cfg, model, l), trace + [l];
    }

    /** The step of one request. */
    ghost method Move(l: Label)
      requires Reached() && !l.Arrive? && !l.Refresh? && Enabled(model, l)
      modifies this`model, this`trace
      ensures Reached() && trace == old(trace) + [l]
      ensures model == Moved(old(model), l.r, NextStage(cfg, old(model), l), RegLabel(cfg, old(model), l))
    {
      Take(l);
    }

    /** One round of the updater; with configured applications it has nothing to do. */
    method RefreshApps(refresh: Apps.Refresh)
      requires Valid()
      modifies this`model, this`trace, registry
      ensures Valid() && trace == old(trace) + if registry.hasPool then [Refresh(refresh)] else []
      ensures registry.apps ==
        if registry.hasPool then Apps.Refreshed(old(registry.apps), refresh) else old(registry.apps)
    {
      var _ := registry.UpdateApps(refresh);
      if registry.hasPool {
        Take(Refresh(refresh));
      }
    }

    /** The request is one of those that wait for their device. */
    ghost predicate Waits(r: nat, context: Context, batch: Batch)
      reads this
    {
      && r < |model.requests|
      && model.requests[r].stage.Validated? && model.requests[r].stage.context == context
      && model.requests[r].incoming.batch == batch
      && context.appId == batch.appId
    }

    /** The lookup, and a new id if it found none. */
    method FetchId(context: Context, batch: Batch, world: World, ghost r: nat) returns (id: DeviceId)
      requires Valid() && Waits(r, context, batch) && NeedsDevice(model.requests[r].incoming, context)
      modifies this`model, this`trace, store
      ensures Valid() && trace == old(trace) + [Read(r, world.readFault, world.generated, world.nonce)]
      ensures model.requests == old(model.requests)[r :=
        Request(old(model.requests[r].incoming), Held(context, old(model.requests[r].stage.seen), id))]
      ensures store.table == old(store.table)
      ensures !batch.device.ifaTrackingEnabled ==> id.cleartext == Uuid.Print(world.generated)
    {
      var found := store.GetIdForIfa(context.appId, batch.device.ifa, batch.device.ifaTrackingEnabled, world.readFault);
      var cleartext := if found.Some? then found.value else Uuid.Print(world.generated);
      var ciphertext := Encrypt(cfg.aead, world.nonce, cleartext);
      id := DeviceId(ciphertext, cleartext);
      Move(Read(r, world.readFault, world.generated, world.nonce));
    }

    /** The write; what comes of it is ignored. */
    method StoreId(context: Context, batch: Batch, id: DeviceId, world: World, ghost r: nat)
      requires Valid() && r < |model.requests|
      requires var Request(incoming, stage) := model.requests[r];
               && incoming.batch == batch && context.appId == batch.appId
               && stage.Held? && stage.context == context && stage.id == id
      modifies this`model, this`trace, store
      ensures Valid() && trace == old(trace) + [Write(r, world.writeFault)]
      ensures model.requests == old(model.requests)[r :=
        Request(old(model.requests[r].incoming), Identified(context, old(model.requests[r].stage.seen), id))]
      ensures !batch.device.ifaTrackingEnabled ==> store.table == old(store.table)
    {
      HeldInProtocol(r);
      var device := batch.device;
      var _ := store.PutIdForIfa(context.appId, id.cleartext, device.ifa, device.ifaTrackingEnabled, world.writeFault);
      Move(Write(r, world.writeFault));
    }

    lemma HeldInProtocol(r: nat)
      requires Reached() && r < |model.requests| && model.requests[r].stage.Held?
      ensures var Request(incoming, stage) := model.requests[r];
              InPhase(model.registration, r, incoming, Reg.Holding(stage.id.cleartext))
    {
      ReachableInv(cfg, initial, trace);
      assert StageOk(cfg, model.registration, r, model.requests[r]);
    }

    /** The device goes into the context, with a token if the client sent none. */
    method FillContext(context: Context, batch: Batch, eventId: Str, id: DeviceId, ghost r: nat)
      returns (results: seq<EventResult>, filled: Context)
      requires Valid() && r < |model.requests|
      requires var Request(incoming, stage) := model.requests[r];
               && incoming.batch == batch
               && ((stage.Identified? && stage.context == context && stage.id == id) ||
                   (stage.Validated? && stage.context == context && context.deviceId == Some(id)))
      requires FirstRegister(batch.events).Some? && eventId == batch.events[FirstRegister(batch.events).value].id
      modifies this`model, this`trace
      ensures Valid() && trace == old(trace) + [Respond(r)]
      ensures model.requests == old(model.requests)[r :=
        Request(old(model.requests[r].incoming), Resolved(filled, old(model.requests[r].stage.seen), results))]
    {
      filled := context.(deviceId := Some(id));
      if filled.apiToken.None? {
        var token := registry.TokenFor(filled.appId);
        filled := filled.(apiToken := token);
      }
      Move(Respond(r));
      results := [EventResult(eventId, Some(RegistrationData(filled.apiToken, id.ciphertext)))];
    }

    /** Looks the device up, or generates one, and writes it back. */
    method CreateNewDevice(context: Context, batch: Batch, eventId: Str, world: World, ghost r: nat)
      returns (answer: Option<(seq<EventResult>, Context)>)
      requires Valid() && Waits(r, context, batch)
      requires FirstRegister(batch.events).Some? && eventId == batch.events[FirstRegister(batch.events).value].id
      modifies this`model, this`trace, store
      ensures Valid() && old(trace) <= trace
      ensures match answer
              case None => model.requests == old(model.requests)[r :=
                Request(old(model.requests[r].incoming), Rejected(ServiceUnavailable))]
              case Some((results, filled)) => model.requests == old(model.requests)[r :=
                Request(old(model.requests[r].incoming), Resolved(filled, old(model.requests[r].stage.seen), results))]
    {
      var deviceId: DeviceId;
      if context.deviceId.Some? {
        deviceId := context.deviceId.value;
      } else {
        if world.poolRefuses {
          Move(GiveUp(r));
          return None;
        }
        deviceId := FetchId(context, batch, world, r);
        StoreId(context, batch, deviceId, world, r);
      }
      var results, filled := FillContext(context, batch, eventId, deviceId, r);
      answer := Some((results, filled));
    }

    method GenerateEventResults(context: Context, batch: Batch, world: World, ghost r: nat)
      returns (answer: Option<(seq<EventResult>, Context)>)
      requires Valid() && Waits(r, context, batch)
      modifies this`model, this`trace, store
      ensures Valid() && old(trace) <= trace
      ensures match answer
              case None => model.requests == old(model.requests)[r :=
                Request(old(model.requests[r].incoming), Rejected(ServiceUnavailable))]
              case Some((results, filled)) => model.requests == old(model.requests)[r :=
                Request(old(model.requests[r].incoming), Resolved(filled, old(model.requests[r].stage.seen), results))]
    {
      match FirstRegister(batch.events) {
        case Some(i) =>
          answer := CreateNewDevice(context, batch, batch.events[i].id, world, r);
        case None =>
          Move(Respond(r));
          answer := Some((Mapped(PlainResult, batch.events), context));
      }
    }

    /** No request but this one has come to another stage. */
    ghost predicate OnlyMoved(before: seq<Request>, r: nat)
      reads this
      requires r < |before|
    {
      && |model.requests| == |before|
      && model.requests[r].incoming == before[r].incoming
      && model.requests == before[r := model.requests[r]]
    }

    /** What a request in this stage has published. */
    function RecordsOf(stage: Stage): seq<Record> {
      if IsPublished(stage) then [stage.record] else []
    }

    /** Converts the batch and hands it to Kafka. */
    method Send(context: Context, batch: Batch, results: seq<EventResult>, createdAt: int, ghost r: nat)
      requires Valid() && r < |model.requests|
      requires var Request(incoming, stage) := model.requests[r];
               incoming.batch == batch && stage.Resolved? && stage.context == context && stage.results == results
      modifies this`published, this`model, this`trace
      ensures Valid() && old(trace) <= trace
      ensures OnlyMoved(old(model.requests), r)
      ensures model.requests[r].stage.Sent? && model.requests[r].stage.results == results
      ensures published == old(published) + [model.requests[r].stage.record]
    {
      var owned := new OwnedBatch(batch);
      var proto := owned.IntoProto(context, createdAt);
      Move(Publish(r, owned.events, createdAt));
      published := published + [Record(RoutingKey(context), proto)];
    }

    /** Publishes, and counts what was delivered. */
    method PublishBatch(context: Context, batch: Batch, results: seq<EventResult>, world: World, ghost r: nat)
      returns (answer: Answer)
      requires Valid() && r < |model.requests|
      requires var Request(incoming, stage) := model.requests[r];
               incoming.batch == batch && stage.Resolved? && stage.context == context && stage.results == results
      modifies this
      ensures Valid() && old(trace) <= trace
      ensures OnlyMoved(old(model.requests), r)
      ensures Answers(model.requests[r].stage, answer) && IsPublished(model.requests[r].stage)
      ensures published == old(published) + [model.requests[r].stage.record]
      ensures eventsCounter == old(eventsCounter) + if answer.Ok? then |answer.value| else 0
      ensures answer != Err(UnknownOrigin)
    {
      Send(context, batch, results, world.createdAt, r);
      Move(Resolve(r, world.delivered));
      if world.delivered {
        eventsCounter := eventsCounter + |results|;
        answer := Ok(results);
      } else {
        answer := Err(ServiceUnavailable);
      }
    }

    /** The client can decrypt the one result to the recipient of the published record. */
    ghost predicate ClientAndRecordAgree(results: seq<EventResult>, record: Record) {
      && |results| == 1 && results[0].registration.Some? && record.proto.header.recipientId.Some?
      && Unwrap(cfg.aead, results[0].registration.value.deviceId) == Clear(record.proto.header.recipientId.value)
    }

    lemma SuccessAgrees(r: nat)
      requires Reached() && r < |model.requests|
      requires model.requests[r].stage.Accepted? && Registers(model.requests[r].incoming)
      ensures ClientAndRecordAgree(model.requests[r].stage.results, model.requests[r].stage.record)
    {
      var _ := IdentityAgrees(cfg, initial, trace, r);
    }

    /** The rest of the handler, once the request is validated. */
    method AnswerValidated(context: Context, batch: Batch, world: World, ghost r: nat) returns (answer: Answer)
      requires Valid() && Waits(r, context, batch)
      modifies this, store
      ensures Valid() && old(trace) <= trace
      ensures OnlyMoved(old(model.requests), r)
      ensures Answers(model.requests[r].stage, answer)
      ensures published == old(published) + RecordsOf(model.requests[r].stage)
      ensures eventsCounter == old(eventsCounter) + if answer.Ok? then |answer.value| else 0
      ensures answer != Err(UnknownOrigin)
    {
      var resolved := GenerateEventResults(context, batch, world, r);
      match resolved {
        case None => answer := Err(ServiceUnavailable);
        case Some((results, filled)) => answer := PublishBatch(filled, batch, results, world, r);
      }
    }

    /** The origin check. */
    method AdmitRequest(incoming: Incoming) returns (admitted: Result<Context, GatewayError>)
      requires Valid() && Survives(cfg.aead, incoming.headers)
      modifies this`model, this`trace
      ensures Valid() && old(trace) <= trace
      ensures model.requests == old(model.requests) + [Request(incoming,
        match admitted case Ok(context) => Admitted(context) case Err(e) => Rejected(e))]
      ensures admitted.Ok? ==> admitted.value.appId == incoming.batch.appId
      ensures admitted == Err(UnknownOrigin) <==> !OriginIsFine(cfg, incoming)
      ensures admitted.Err? ==> admitted.error == UnknownOrigin
    {
      var batch := incoming.batch;
      ghost var r := |model.requests|;
      PlatformExactly(batch.device);
      Take(Arrive(incoming));
      var context := NewContext(cfg.aead, incoming.headers, batch.appId, PlatformOf(batch.device));
      Move(Admit(r));
      if cfg.cors.Some? && PlatformOf(batch.device) == Web
         && !Cors.ValidOrigin(cfg.cors.value, batch.appId, incoming.headers.origin) {
        admitted := Err(UnknownOrigin);
      } else {
        admitted := Ok(context);
      }
    }

    /** From the parsed request to its answer. The call is a run of the pipeline model, and
        the answer is that of the stage it ends in. */
    method HandleEvent(incoming: Incoming, world: World) returns (answer: Answer)
      requires Valid() && Survives(cfg.aead, incoming.headers)
      modifies this, store
      ensures Valid() && old(trace) <= trace
      ensures |model.requests| == |old(model.requests)| + 1 && old(model.requests) <= model.requests
      ensures var Request(given, stage) := model.requests[|old(model.requests)|];
              && given == incoming
              && Answers(stage, answer)
              && published == old(published) + RecordsOf(stage)
              && (IsPublished(stage) ==> Carries(incoming, stage))
              && (answer.Ok? && Registers(incoming) ==> ClientAndRecordAgree(answer.value, stage.record))
      ensures eventsCounter == old(eventsCounter) + if answer.Ok? then |answer.value| else 0
      ensures answer == Err(UnknownOrigin) <==> !OriginIsFine(cfg, incoming)
    {
      ghost var r := |model.requests|;
      var admitted := AdmitRequest(incoming);
      if admitted.Err? {
        return Err(admitted.error);
      }
      var context := admitted.value;
      var valid := Apps.Validate(registry.policy, registry.apps, incoming.batch, context, incoming.raw);
      Move(Check(r));
      Apps.RefusesExactly(registry.policy, registry.apps, incoming.batch, context, incoming.raw, UnknownOrigin);
      if valid.Err? {
        return Err(valid.error);
      }
      answer := AnswerValidated(context, incoming.batch, world, r);
      PublishedCarries(r);
      if answer.Ok? && Registers(incoming) {
        SuccessAgrees(r);
      }
    }

    /** The record has the whole batch in timestamp order, under the context of the request,
        which is that of its headers unless it registered. */
    ghost predicate Carries(incoming: Incoming, stage: Stage)
      requires IsPublished(stage)
    {
      && RecordOk(incoming, stage.context, stage.record)
      && (!Registers(incoming) ==> stage.context == ContextOf(cfg, incoming))
    }

    lemma PublishedCarries(r: nat)
      requires Reached() && r < |model.requests|
      ensures IsPublished(model.requests[r].stage) ==> Carries(model.requests[r].incoming, model.requests[r].stage)
    {
      ReachableInv(cfg, initial, trace);
      assert StageOk(cfg, model.registration, r, model.requests[r]);
    }
  }
}
