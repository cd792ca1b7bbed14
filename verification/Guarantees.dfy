/** What holds of every run of the gateway, whatever the interleaving of requests, faults
    and refreshes. */
module Guarantees {
  import opened Wrappers
  import opened Text
  import opened Errors
  import opened Encryption
  import opened RequestContext
  import opened EventBatch
  import opened IfaMatching
  import opened Pipeline
  import Apps = AppRegistry
  import Base64
  import Cors
  import Reg = Registration
  import Timestamp
  import Uuid

  // ---------------------------------------------------------------------------
  // Publication
  // ---------------------------------------------------------------------------

  predicate HasSnapshot(stage: Stage) {
    !stage.Arrived? && !stage.Admitted? && !stage.Rejected? && !stage.Aborted?
  }

  /** At position `n` of the run, request `r` was validated against the live table `seen`. */
  ghost predicate CheckedAt(cfg: Config, s: Sys, run: seq<Label>, n: nat, r: nat, seen: Apps.Table) {
    n < |run| && run[n] == Check(r) && Enabled(Exec(cfg, s, run[..n]), run[n]) && Exec(cfg, s, run[..n]).apps == seen
  }

  lemma CheckedAtExtends(cfg: Config, s: Sys, run: seq<Label>, n: nat, r: nat, seen: Apps.Table)
    requires run != [] && CheckedAt(cfg, s, run[..|run| - 1], n, r, seen)
    ensures CheckedAt(cfg, s, run, n, r, seen)
  {
    assert run[..|run| - 1][..n] == run[..n];
  }

  /** The table a validation used was the live one, as a whole, at that moment. */
  lemma {:induction false} SnapshotWasLive(cfg: Config, s: Sys, run: seq<Label>, r: nat) returns (n: nat)
    requires Init(s) && r < |Exec(cfg, s, run).requests| && HasSnapshot(Exec(cfg, s, run).requests[r].stage)
    ensures CheckedAt(cfg, s, run, n, r, Exec(cfg, s, run).requests[r].stage.seen)
  {
    var init, l := run[..|run| - 1], run[|run| - 1];
    var before := Exec(cfg, s, init);
    if r < |before.requests| && HasSnapshot(before.requests[r].stage) {
      n := SnapshotWasLive(cfg, s, init, r);
      SeenIsKept(cfg, before, l, r);
      CheckedAtExtends(cfg, s, run, n, r, before.requests[r].stage.seen);
    } else {
      n := |run| - 1;
      SeenIsLive(cfg, before, l, r);
      assert run[..n] == init;
    }
  }

  lemma SeenIsKept(cfg: Config, s: Sys, l: Label, r: nat)
    requires r < |s.requests| && HasSnapshot(s.requests[r].stage)
    requires HasSnapshot(Step(cfg, s, l).requests[r].stage)
    ensures Step(cfg, s, l).requests[r].stage.seen == s.requests[r].stage.seen
  {
  }

  lemma SeenIsLive(cfg: Config, s: Sys, l: Label, r: nat)
    requires !(r < |s.requests| && HasSnapshot(s.requests[r].stage))
    requires r < |Step(cfg, s, l).requests| && HasSnapshot(Step(cfg, s, l).requests[r].stage)
    ensures l == Check(r) && Enabled(s, l) && Step(cfg, s, l).requests[r].stage.seen == s.apps
  {
  }

  /** Everything in the log was admissible: there were events, the application was in a table
      live in this run, the token did not mismatch, a web request came from an accepted origin,
      and the signature held unless signatures are waived. Its events are those of the batch,
      with timestamps that ascend. */
  lemma PublishedWasAdmissible(cfg: Config, s: Sys, run: seq<Label>, i: nat) returns (n: nat)
    requires Init(s) && i < |Exec(cfg, s, run).log|
    ensures var t := Exec(cfg, s, run);
            var Entry(r, record) := t.log[i];
            && r < |t.requests| && n < |run|
            && var incoming := t.requests[r].incoming;
               var seen := Exec(cfg, s, run[..n]).apps;
               var Headers(_, token, signature, origin) := incoming.headers;
               && CheckedAt(cfg, s, run, n, r, seen)
               && Apps.Admissible(cfg.policy, seen, incoming.batch, token, signature, incoming.raw)
               && (cfg.cors.Some? && OnWeb(incoming.batch.device) ==>
                     origin.Some? && Cors.Lists(cfg.cors.value, incoming.batch.appId, origin.value))
               && |record.proto.events| == |incoming.batch.events|
               && multiset(record.proto.events) == multiset(AllData(incoming.batch.events))
               && forall a, b :: 0 <= a < b < |record.proto.events| ==>
                    Timestamp.Parse(record.proto.events[a].timestamp).Some?
                    && Timestamp.Parse(record.proto.events[b].timestamp).Some?
                    && Timestamp.Parse(record.proto.events[a].timestamp).value
                       <= Timestamp.Parse(record.proto.events[b].timestamp).value
  {
    ReachableInv(cfg, s, run);
    var t := Exec(cfg, s, run);
    var Entry(r, record) := t.log[i];
    assert EntryOk(t.requests, t.log[i]);
    assert StageOk(cfg, t.registration, r, t.requests[r]);
    n := SnapshotWasLive(cfg, s, run, r);
    RecordIsOrdered(t.requests[r].incoming, t.requests[r].stage.context, record);
  }

  lemma RecordIsOrdered(incoming: Incoming, context: Context, record: Record)
    requires RecordOk(incoming, context, record)
    ensures record.proto.header.source == incoming.batch.appId
    ensures |record.proto.events| == |incoming.batch.events|
    ensures multiset(record.proto.events) == multiset(AllData(incoming.batch.events))
    ensures forall a :: 0 <= a < |record.proto.events| ==> Timestamp.Parse(record.proto.events[a].timestamp).Some?
    ensures forall a, b :: 0 <= a < b < |record.proto.events| ==>
      Timestamp.Parse(record.proto.events[a].timestamp).value <= Timestamp.Parse(record.proto.events[b].timestamp).value
  {
    var order, createdAt :|
      IsOrdering(incoming.batch.events, order) && record == RecordFor(incoming, context, order, createdAt);
    PublishedInOrder(incoming.batch, order, context, createdAt);
    assert |order| == |multiset(order)| == |multiset(incoming.batch.events)| == |incoming.batch.events|;
  }

  /** A request is in the log at most once, and every request answered with success is there. */
  lemma AcceptedIsPublishedOnce(cfg: Config, s: Sys, run: seq<Label>, r: nat) returns (i: nat)
    requires Init(s) && r < |Exec(cfg, s, run).requests| && Exec(cfg, s, run).requests[r].stage.Accepted?
    ensures var t := Exec(cfg, s, run);
            && i < |t.log| && t.log[i] == Entry(r, t.requests[r].stage.record)
            && forall j :: 0 <= j < |t.log| && t.log[j].request == r ==> j == i
  {
    ReachableInv(cfg, s, run);
    var t := Exec(cfg, s, run);
    assert Entry(r, t.requests[r].stage.record) in t.log;
    i :| 0 <= i < |t.log| && t.log[i] == Entry(r, t.requests[r].stage.record);
    forall j | 0 <= j < |t.log| && t.log[j].request == r ensures j == i {
      assert j < i || i < j || i == j;
    }
  }

  /** Delivery of request `r` was confirmed at position `n`. */
  ghost predicate DeliveredAt(cfg: Config, s: Sys, run: seq<Label>, n: nat, r: nat) {
    n < |run| && run[n] == Resolve(r, true) && Enabled(Exec(cfg, s, run[..n]), run[n])
  }

  /** Success is answered exactly when Kafka confirmed the record. */
  lemma {:induction false} AcceptedExactlyIfDelivered(cfg: Config, s: Sys, run: seq<Label>, r: nat)
    requires Init(s)
    ensures var t := Exec(cfg, s, run);
            r < |t.requests| && t.requests[r].stage.Accepted? <==> exists n: nat :: DeliveredAt(cfg, s, run, n, r)
  {
    if run != [] {
      var init, l := run[..|run| - 1], run[|run| - 1];
      var before := Exec(cfg, s, init);
      AcceptedExactlyIfDelivered(cfg, s, init, r);
      AcceptedAfterStep(cfg, before, l, r);
      assert forall n: nat :: n < |init| ==> init[..n] == run[..n];
      assert run[..|init|] == init;
      forall n: nat | DeliveredAt(cfg, s, init, n, r) ensures DeliveredAt(cfg, s, run, n, r) {}
      forall n: nat | DeliveredAt(cfg, s, run, n, r) && n < |init| ensures DeliveredAt(cfg, s, init, n, r) {}
      if l == Resolve(r, true) && Enabled(before, l) {
        assert DeliveredAt(cfg, s, run, |init|, r);
      }
    }
  }

  lemma AcceptedAfterStep(cfg: Config, s: Sys, l: Label, r: nat)
    ensures var t := Step(cfg, s, l);
            (r < |t.requests| && t.requests[r].stage.Accepted?) <==>
            ((r < |s.requests| && s.requests[r].stage.Accepted?) || (l == Resolve(r, true) && Enabled(s, l)))
  {
  }

  // ---------------------------------------------------------------------------
  // Refusal
  // ---------------------------------------------------------------------------

  predicate Fails(stage: Stage, e: GatewayError) {
    stage == Rejected(e) || (stage.Undelivered? && e == ServiceUnavailable)
  }

  predicate FailedWith(s: Sys, r: nat, e: GatewayError) {
    r < |s.requests| && Fails(s.requests[r].stage, e)
  }

  /** The device id header is well-formed base64 of fewer than 16 symbols. */
  predicate TooShort(headers: Headers) {
    headers.deviceId.Some? && Base64.WellFormed(headers.deviceId.value) && Base64.Symbols(headers.deviceId.value) < 16
  }

  lemma SurvivesExactly(cfg: Config, headers: Headers)
    ensures Survives(cfg.aead, headers) <==> !TooShort(headers)
  {
    if headers.deviceId.Some? {
      PanicsExactly(cfg.aead, headers.deviceId.value);
    }
  }

  ghost predicate HasRegister(batch: Batch) {
    exists i :: 0 <= i < |batch.events| && batch.events[i].name == Ascii("xorc_register")
  }

  /** The client sent no device id that decrypts. */
  ghost predicate SentNoDevice(cfg: Config, headers: Headers) {
    headers.deviceId.Some? ==> !Unwrap(cfg.aead, headers.deviceId.value).Clear?
  }

  /** The step refuses request `r`: its origin, its validation against the table live at that
      moment, the identity store that accepts no work, or a delivery that is not confirmed. */
  ghost predicate Refuses(cfg: Config, s: Sys, l: Label, r: nat, e: GatewayError) {
    && Enabled(s, l)
    && (l == Admit(r) || l == Check(r) || l == GiveUp(r) || l == Resolve(r, false))
    && var incoming := s.requests[r].incoming;
       var Headers(_, token, signature, _) := incoming.headers;
       match l
       case Admit(_) => e == UnknownOrigin && !TooShort(incoming.headers) && !OriginIsFine(cfg, incoming)
       case Check(_) => Apps.Refusal(cfg.policy, s.apps, incoming.batch, token, signature, incoming.raw, e)
       case GiveUp(_) => e == ServiceUnavailable && HasRegister(incoming.batch) && SentNoDevice(cfg, incoming.headers)
       case _ => e == ServiceUnavailable
  }

  ghost predicate RefusedAt(cfg: Config, s: Sys, run: seq<Label>, n: nat, r: nat, e: GatewayError) {
    n < |run| && Refuses(cfg, Exec(cfg, s, run[..n]), run[n], r, e)
  }

  ghost predicate EverRefused(cfg: Config, s: Sys, run: seq<Label>, r: nat, e: GatewayError) {
    exists n: nat :: RefusedAt(cfg, s, run, n, r, e)
  }

  lemma FailsAfterCheck(cfg: Config, s: Sys, r: nat, e: GatewayError)
    requires Enabled(s, Check(r)) && StageOk(cfg, s.registration, r, s.requests[r])
    ensures Fails(NextStage(cfg, s, Check(r)), e) <==> Refuses(cfg, s, Check(r), r, e)
  {
    var Request(incoming, stage) := s.requests[r];
    Apps.RefusesExactly(cfg.policy, s.apps, incoming.batch, stage.context, incoming.raw, e);
  }

  lemma FailsAfterAdmit(cfg: Config, s: Sys, r: nat, e: GatewayError)
    requires Enabled(s, Admit(r))
    ensures Fails(NextStage(cfg, s, Admit(r)), e) <==> Refuses(cfg, s, Admit(r), r, e)
  {
    var incoming := s.requests[r].incoming;
    SurvivesExactly(cfg, incoming.headers);
    OriginAcceptedExactly(cfg, incoming);
  }

  lemma FailsAfterGiveUp(cfg: Config, s: Sys, r: nat, e: GatewayError)
    requires Enabled(s, GiveUp(r)) && StageOk(cfg, s.registration, r, s.requests[r])
    ensures Fails(NextStage(cfg, s, GiveUp(r)), e) <==> Refuses(cfg, s, GiveUp(r), r, e)
  {
    assert HasRegister(s.requests[r].incoming.batch);
  }

  lemma FailsAfterMove(cfg: Config, s: Sys, l: Label, e: GatewayError)
    requires !l.Arrive? && !l.Refresh? && !l.Admit? && !l.Check? && !l.GiveUp? && Enabled(s, l)
    ensures Fails(NextStage(cfg, s, l), e) <==> Refuses(cfg, s, l, l.r, e)
  {
  }

  lemma FailedIsIdle(s: Sys, l: Label, e: GatewayError)
    requires !l.Arrive? && !l.Refresh? && l.r < |s.requests| && Fails(s.requests[l.r].stage, e)
    ensures !Enabled(s, l)
  {
  }

  lemma FailsAfterOwnStep(cfg: Config, s: Sys, l: Label, e: GatewayError)
    requires !l.Arrive? && !l.Refresh? && Enabled(s, l) && StageOk(cfg, s.registration, l.r, s.requests[l.r])
    ensures !FailedWith(s, l.r, e)
    ensures FailedWith(Step(cfg, s, l), l.r, e) <==> Refuses(cfg, s, l, l.r, e)
  {
    if FailedWith(s, l.r, e) {
      FailedIsIdle(s, l, e);
    }
    if l.Check? {
      FailsAfterCheck(cfg, s, l.r, e);
    } else if l.Admit? {
      FailsAfterAdmit(cfg, s, l.r, e);
    } else if l.GiveUp? {
      FailsAfterGiveUp(cfg, s, l.r, e);
    } else {
      FailsAfterMove(cfg, s, l, e);
    }
    MovedStage(s, l.r, NextStage(cfg, s, l), RegLabel(cfg, s, l), l.r);
  }

  predicate Moves(l: Label, r: nat) {
    !l.Arrive? && !l.Refresh? && l.r == r
  }

  /** A step of another request leaves this one where it is. */
  lemma StaysOnOtherStep(cfg: Config, s: Sys, l: Label, r: nat)
    requires !Enabled(s, l) || !Moves(l, r)
    ensures var t := Step(cfg, s, l);
            && |s.requests| <= |t.requests|
            && (r < |s.requests| ==> t.requests[r].stage == s.requests[r].stage)
            && (|s.requests| <= r < |t.requests| ==> t.requests[r].stage.Arrived?)
  {
    if Enabled(s, l) && !l.Arrive? && !l.Refresh? {
      var next, regLabel := NextStage(cfg, s, l), RegLabel(cfg, s, l);
      MovedStage(s, l.r, next, regLabel, r);
    }
  }

  lemma RefusesNoOther(cfg: Config, s: Sys, l: Label, r: nat, e: GatewayError)
    requires !Enabled(s, l) || !Moves(l, r)
    ensures !Refuses(cfg, s, l, r, e)
  {
  }

  lemma FailedAfterStep(cfg: Config, s: Sys, l: Label, r: nat, e: GatewayError)
    requires Inv(cfg, s)
    ensures FailedWith(Step(cfg, s, l), r, e) <==> FailedWith(s, r, e) || Refuses(cfg, s, l, r, e)
  {
    if Enabled(s, l) && Moves(l, r) {
      assert StageOk(cfg, s.registration, r, s.requests[r]);
      FailsAfterOwnStep(cfg, s, l, e);
    } else {
      StaysOnOtherStep(cfg, s, l, r);
      RefusesNoOther(cfg, s, l, r, e);
    }
  }

  lemma MovedStage(s: Sys, r: nat, next: Stage, regLabel: Option<Reg.Label>, i: nat)
    requires r < |s.requests|
    ensures var t := Moved(s, r, next, regLabel);
            |t.requests| == |s.requests| &&
            (i < |s.requests| ==> t.requests[i].stage == if i == r then next else s.requests[i].stage)
  {
  }

  lemma RefusedAtPrefix(cfg: Config, s: Sys, run: seq<Label>, n: nat, r: nat, e: GatewayError)
    requires run != [] && n < |run| - 1
    ensures RefusedAt(cfg, s, run, n, r, e) <==> RefusedAt(cfg, s, run[..|run| - 1], n, r, e)
  {
    var init := run[..|run| - 1];
    assert init[..n] == run[..n] && init[n] == run[n];
  }

  lemma RefusedAtLast(cfg: Config, s: Sys, run: seq<Label>, r: nat, e: GatewayError)
    requires run != []
    ensures var n := |run| - 1;
            RefusedAt(cfg, s, run, n, r, e) <==> Refuses(cfg, Exec(cfg, s, run[..n]), run[n], r, e)
  {
  }

  lemma RefusedAtExtends(cfg: Config, s: Sys, run: seq<Label>, r: nat, e: GatewayError)
    requires run != []
    ensures var n := |run| - 1;
            EverRefused(cfg, s, run, r, e) <==> EverRefused(cfg, s, run[..n], r, e) || RefusedAt(cfg, s, run, n, r, e)
  {
    var last := |run| - 1;
    if EverRefused(cfg, s, run, r, e) {
      var n: nat :| RefusedAt(cfg, s, run, n, r, e);
      if n < last {
        RefusedAtPrefix(cfg, s, run, n, r, e);
      }
    }
    if EverRefused(cfg, s, run[..last], r, e) {
      var n: nat :| RefusedAt(cfg, s, run[..last], n, r, e);
      RefusedAtPrefix(cfg, s, run, n, r, e);
    }
  }

  /** A request fails with an error exactly when some step of the run refused it with this
      error: every error is the verdict of one check, made on one table that was live. */
  lemma {:induction false} FailsExactlyIfRefused(cfg: Config, s: Sys, run: seq<Label>, r: nat, e: GatewayError)
    requires Init(s)
    ensures FailedWith(Exec(cfg, s, run), r, e) <==> EverRefused(cfg, s, run, r, e)
  {
    if run != [] {
      var init, l := run[..|run| - 1], run[|run| - 1];
      FailsExactlyIfRefused(cfg, s, init, r, e);
      ReachableInv(cfg, s, init);
      FailedAfterStep(cfg, Exec(cfg, s, init), l, r, e);
      RefusedAtLast(cfg, s, run, r, e);
      RefusedAtExtends(cfg, s, run, r, e);
    }
  }

  predicate AbortsRightly(request: Request) {
    request.stage.Arrived? || (request.stage.Aborted? <==> TooShort(request.incoming.headers))
  }

  lemma AbortsAfterStep(cfg: Config, s: Sys, l: Label, r: nat)
    requires r < |Step(cfg, s, l).requests|
    requires r < |s.requests| ==> AbortsRightly(s.requests[r])
    ensures AbortsRightly(Step(cfg, s, l).requests[r])
  {
    SurvivesExactly(cfg, Step(cfg, s, l).requests[r].incoming.headers);
  }

  /** Of the requests that were looked at, exactly those with a header too short to decrypt
      are aborted, and a request with such a header is never answered or published. */
  lemma {:induction false} AbortsExactlyOnPanic(cfg: Config, s: Sys, run: seq<Label>, r: nat)
    requires Init(s) && r < |Exec(cfg, s, run).requests|
    ensures AbortsRightly(Exec(cfg, s, run).requests[r])
  {
    if run != [] {
      var init, l := run[..|run| - 1], run[|run| - 1];
      if r < |Exec(cfg, s, init).requests| {
        AbortsExactlyOnPanic(cfg, s, init, r);
      }
      AbortsAfterStep(cfg, Exec(cfg, s, init), l, r);
    }
  }

  /** EVENTS_COUNTER is the number of results in all success answers. */
  lemma CounterCountsAnswers(cfg: Config, s: Sys, run: seq<Label>)
    requires Init(s)
    ensures Exec(cfg, s, run).counter == TotalAnswered(Exec(cfg, s, run).requests)
  {
    ReachableInv(cfg, s, run);
  }

  // ---------------------------------------------------------------------------
  // Identity
  // ---------------------------------------------------------------------------

  /** A successful registration: the client's ciphertext decrypts to the published recipient,
      which is also the device part of the Kafka key. It is the device of the header if there
      was a usable one, and otherwise what the registration protocol ended with. */
  lemma IdentityAgrees(cfg: Config, s: Sys, run: seq<Label>, r: nat) returns (cleartext: Str)
    requires Init(s) && r < |Exec(cfg, s, run).requests|
    requires Exec(cfg, s, run).requests[r].stage.Accepted? && Registers(Exec(cfg, s, run).requests[r].incoming)
    ensures var t := Exec(cfg, s, run);
            var Request(incoming, stage) := t.requests[r];
            && |stage.results| == 1 && stage.results[0].registration.Some?
            && Unwrap(cfg.aead, stage.results[0].registration.value.deviceId) == Clear(cleartext)
            && stage.results[0].registration.value.apiToken == stage.context.apiToken
            && (incoming.headers.apiToken.Some? ==> stage.context.apiToken == incoming.headers.apiToken)
            && stage.record.proto.header.recipientId == Some(cleartext)
            && stage.record.key == Some(incoming.batch.appId + [BAR] + cleartext)
            && match ContextOf(cfg, incoming).deviceId
               case Some(sent) => DeviceId(stage.results[0].registration.value.deviceId, cleartext) == sent
               case None => InPhase(t.registration, r, incoming, Reg.Done(cleartext))
  {
    ReachableInv(cfg, s, run);
    var t := Exec(cfg, s, run);
    assert StageOk(cfg, t.registration, r, t.requests[r]);
    cleartext := t.requests[r].stage.context.deviceId.value.cleartext;
  }

  /** A success answer with this one ciphertext. */
  predicate Gives(stage: Stage, ciphertext: Str) {
    && stage.Accepted? && |stage.results| == 1 && stage.results[0].registration.Some?
    && stage.results[0].registration.value.deviceId == ciphertext
  }

  /** A client that sends back what a successful registration gave it is published under the
      same recipient, with the same Kafka key within its application, and if it registers
      again gets the same ciphertext. */
  lemma ReturnedIdIsRecognised(cfg: Config, s: Sys, run: seq<Label>, r: nat, q: nat, ciphertext: Str)
    requires Init(s) && r < |Exec(cfg, s, run).requests| && q < |Exec(cfg, s, run).requests|
    requires Gives(Exec(cfg, s, run).requests[r].stage, ciphertext)
    requires Exec(cfg, s, run).requests[q].stage.Accepted?
    requires Exec(cfg, s, run).requests[q].incoming.headers.deviceId == Some(ciphertext)
    ensures var t := Exec(cfg, s, run);
            var given, later := t.requests[r], t.requests[q];
            && later.stage.record.proto.header.recipientId.Some?
            && later.stage.record.proto.header.recipientId == given.stage.record.proto.header.recipientId
            && (later.incoming.batch.appId == given.incoming.batch.appId ==>
                  later.stage.record.key == given.stage.record.key)
            && (Registers(later.incoming) ==> Gives(later.stage, ciphertext))
  {
    var t := Exec(cfg, s, run);
    OnlyRegistrationsGive(cfg, s, run, r, ciphertext);
    var cleartext := IdentityAgrees(cfg, s, run, r);
    HeaderIsPublished(cfg, s, run, q, cleartext);
    if Registers(t.requests[q].incoming) {
      var _ := IdentityAgrees(cfg, s, run, q);
    }
  }

  lemma OnlyRegistrationsGive(cfg: Config, s: Sys, run: seq<Label>, r: nat, ciphertext: Str)
    requires Init(s) && r < |Exec(cfg, s, run).requests| && Gives(Exec(cfg, s, run).requests[r].stage, ciphertext)
    ensures Registers(Exec(cfg, s, run).requests[r].incoming)
  {
    ReachableInv(cfg, s, run);
    var t := Exec(cfg, s, run);
    assert StageOk(cfg, t.registration, r, t.requests[r]);
  }

  /** A header that decrypts is the recipient and the device part of the Kafka key. */
  lemma HeaderIsPublished(cfg: Config, s: Sys, run: seq<Label>, r: nat, cleartext: Str)
    requires Init(s) && r < |Exec(cfg, s, run).requests| && Exec(cfg, s, run).requests[r].stage.Accepted?
    requires var headers := Exec(cfg, s, run).requests[r].incoming.headers;
             headers.deviceId.Some? && Unwrap(cfg.aead, headers.deviceId.value) == Clear(cleartext)
    ensures var Request(incoming, stage) := Exec(cfg, s, run).requests[r];
            && stage.record.proto.header.recipientId == Some(cleartext)
            && stage.record.key == Some(incoming.batch.appId + [BAR] + cleartext)
  {
    ReachableInv(cfg, s, run);
    var t := Exec(cfg, s, run);
    assert StageOk(cfg, t.registration, r, t.requests[r]);
  }

  /** The id is that of the first register event. */
  ghost predicate IsFirstRegister(events: seq<Event>, id: Str) {
    exists i :: 0 <= i < |events| && events[i].name == Ascii("xorc_register") && events[i].id == id
                && forall j :: 0 <= j < i ==> events[j].name != Ascii("xorc_register")
  }

  /** Without a register event every event has its result, in request order, and the published
      recipient is the device of the header or else the one the client named. With one there
      is a single result, for the first register event. */
  lemma AnswerShape(cfg: Config, s: Sys, run: seq<Label>, r: nat)
    requires Init(s) && r < |Exec(cfg, s, run).requests| && Exec(cfg, s, run).requests[r].stage.Accepted?
    ensures var Request(incoming, stage) := Exec(cfg, s, run).requests[r];
            var events := incoming.batch.events;
            if HasRegister(incoming.batch)
            then
              && |stage.results| == 1
              && stage.results[0].registration.Some?
              && IsFirstRegister(events, stage.results[0].id)
            else
              && |stage.results| == |events|
              && (forall i :: 0 <= i < |events| ==> stage.results[i] == EventResult(events[i].id, None))
              && stage.record.proto.header.recipientId ==
                   match ContextOf(cfg, incoming).deviceId
                   case Some(id) => Some(id.cleartext)
                   case None => incoming.batch.recipientId
  {
    ReachableInv(cfg, s, run);
    var t := Exec(cfg, s, run);
    assert StageOk(cfg, t.registration, r, t.requests[r]);
    var events := t.requests[r].incoming.batch.events;
    var first := FirstRegister(events);
    if first.Some? {
      assert events[first.value].name == Ascii("xorc_register");
    }
  }

  // ---------------------------------------------------------------------------
  // The token of an answer
  // ---------------------------------------------------------------------------

  ghost predicate RespondedAt(cfg: Config, s: Sys, run: seq<Label>, n: nat, r: nat) {
    n < |run| && run[n] == Respond(r) && Enabled(Exec(cfg, s, run[..n]), run[n])
  }

  predicate IsResolved(stage: Stage) {
    stage.Resolved? || IsPublished(stage)
  }

  lemma {:induction false} AppsUnchanged(cfg: Config, s: Sys, run: seq<Label>, m: nat, n: nat)
    requires m <= n <= |run| && forall i :: m <= i < n ==> !run[i].Refresh?
    ensures Exec(cfg, s, run[..m]).apps == Exec(cfg, s, run[..n]).apps
  {
    if m < n {
      AppsUnchanged(cfg, s, run, m, n - 1);
      assert run[..n][..n - 1] == run[..n - 1];
    }
  }

  lemma ContextIsKept(cfg: Config, s: Sys, l: Label, r: nat)
    requires r < |s.requests| && IsResolved(s.requests[r].stage)
    ensures IsResolved(Step(cfg, s, l).requests[r].stage)
            && Step(cfg, s, l).requests[r].stage.context == s.requests[r].stage.context
  {
  }

  lemma ResolvedByRespond(cfg: Config, s: Sys, l: Label, r: nat)
    requires !(r < |s.requests| && IsResolved(s.requests[r].stage))
    requires r < |Step(cfg, s, l).requests| && IsResolved(Step(cfg, s, l).requests[r].stage)
    ensures l == Respond(r) && Enabled(s, l) && HasSnapshot(s.requests[r].stage)
  {
  }

  lemma TokenFromRespond(cfg: Config, s: Sys, r: nat)
    requires Inv(cfg, s) && Enabled(s, Respond(r))
    ensures var Request(incoming, stage) := Step(cfg, s, Respond(r)).requests[r];
            stage.Resolved? && (Registers(incoming) && incoming.headers.apiToken.None? ==>
              stage.context.apiToken == Apps.TokenIn(s.apps, incoming.batch.appId))
  {
    assert StageOk(cfg, s.registration, r, s.requests[r]);
  }

  /** The token in the answer is the client's, or the one of a table live at position `n`;
      without a refresh since position `m` that is the table of the validation. */
  ghost predicate TokenOk(cfg: Config, s: Sys, run: seq<Label>, m: nat, n: nat, request: Request)
    requires m <= n <= |run| && HasSnapshot(request.stage)
  {
    var Request(incoming, stage) := request;
    Registers(incoming) && incoming.headers.apiToken.None? ==>
      && stage.context.apiToken == Apps.TokenIn(Exec(cfg, s, run[..n]).apps, incoming.batch.appId)
      && ((forall i :: m <= i < n ==> !run[i].Refresh?) ==>
            stage.context.apiToken == Apps.TokenIn(stage.seen, incoming.batch.appId))
  }

  /** A registration without a token gets the one its application had in the table that was
      live at the answer, after the validation; with no refresh in between that is the very
      table the validation used. */
  lemma {:induction false} TokenIsLive(cfg: Config, s: Sys, run: seq<Label>, r: nat) returns (m: nat, n: nat)
    requires Init(s) && r < |Exec(cfg, s, run).requests| && IsResolved(Exec(cfg, s, run).requests[r].stage)
    ensures m < n < |run|
    ensures CheckedAt(cfg, s, run, m, r, Exec(cfg, s, run).requests[r].stage.seen)
    ensures RespondedAt(cfg, s, run, n, r)
    ensures TokenOk(cfg, s, run, m, n, Exec(cfg, s, run).requests[r])
  {
    var init, l := run[..|run| - 1], run[|run| - 1];
    var before := Exec(cfg, s, init);
    if r < |before.requests| && IsResolved(before.requests[r].stage) {
      m, n := TokenIsLive(cfg, s, init, r);
      CheckedAtExtends(cfg, s, run, m, r, before.requests[r].stage.seen);
      assert init[..n] == run[..n];
      TokenIsKept(cfg, s, run, m, n, before, l, r);
    } else {
      m, n := TokenAtRespond(cfg, s, run, r);
    }
  }

  lemma TokenIsKept(cfg: Config, s: Sys, run: seq<Label>, m: nat, n: nat, before: Sys, l: Label, r: nat)
    requires run != [] && m < n < |run[..|run| - 1]| && r < |before.requests| && IsResolved(before.requests[r].stage)
    requires TokenOk(cfg, s, run[..|run| - 1], m, n, before.requests[r]) && run[..|run| - 1][..n] == run[..n]
    ensures var t := Step(cfg, before, l);
            && r < |t.requests| && IsResolved(t.requests[r].stage)
            && t.requests[r].stage.seen == before.requests[r].stage.seen
            && TokenOk(cfg, s, run, m, n, t.requests[r])
  {
    IncomingIsKept(cfg, before, l, r);
    ContextIsKept(cfg, before, l, r);
    SeenIsKept(cfg, before, l, r);
    assert forall i :: 0 <= i < |run| - 1 ==> run[..|run| - 1][i] == run[i];
  }

  lemma TokenAtRespond(cfg: Config, s: Sys, run: seq<Label>, r: nat) returns (m: nat, n: nat)
    requires Init(s) && r < |Exec(cfg, s, run).requests| && IsResolved(Exec(cfg, s, run).requests[r].stage)
    requires run != []
    requires var before := Exec(cfg, s, run[..|run| - 1]);
             !(r < |before.requests| && IsResolved(before.requests[r].stage))
    ensures m < n < |run|
    ensures CheckedAt(cfg, s, run, m, r, Exec(cfg, s, run).requests[r].stage.seen)
    ensures RespondedAt(cfg, s, run, n, r)
    ensures TokenOk(cfg, s, run, m, n, Exec(cfg, s, run).requests[r])
  {
    var init, l := run[..|run| - 1], run[|run| - 1];
    var before := Exec(cfg, s, init);
    ReachableInv(cfg, s, init);
    n := |run| - 1;
    assert run[..n] == init;
    ResolvedByRespond(cfg, before, l, r);
    TokenFromRespond(cfg, before, r);
    m := SnapshotWasLive(cfg, s, init, r);
    SeenIsKept(cfg, before, l, r);
    CheckedAtExtends(cfg, s, run, m, r, before.requests[r].stage.seen);
    if forall i :: m <= i < n ==> !run[i].Refresh? {
      AppsUnchanged(cfg, s, run, m, n);
    }
  }

  lemma IncomingIsKept(cfg: Config, s: Sys, l: Label, r: nat)
    requires r < |s.requests|
    ensures r < |Step(cfg, s, l).requests| && Step(cfg, s, l).requests[r].incoming == s.requests[r].incoming
  {
  }

  // ---------------------------------------------------------------------------
  // The registration protocol inside the gateway
  // ---------------------------------------------------------------------------

  /** The protocol steps that a run of the gateway performs. */
  ghost function Projected(cfg: Config, s: Sys, run: seq<Label>): seq<Reg.Label> {
    if run == [] then []
    else
      var init, l := run[..|run| - 1], run[|run| - 1];
      var before := Exec(cfg, s, init);
      Projected(cfg, s, init)
      + if Enabled(before, l) && RegLabel(cfg, before, l).Some? then [RegLabel(cfg, before, l).value] else []
  }

  /** The gateway runs the protocol: its registrations go through exactly those steps. */
  lemma {:induction false} GatewayRunsProtocol(cfg: Config, s: Sys, run: seq<Label>)
    ensures Exec(cfg, s, run).registration == Reg.Exec(s.registration, Projected(cfg, s, run))
  {
    if run != [] {
      var init, l := run[..|run| - 1], run[|run| - 1];
      var before := Exec(cfg, s, init);
      GatewayRunsProtocol(cfg, s, init);
      if Enabled(before, l) && RegLabel(cfg, before, l).Some? {
        var steps, step := Projected(cfg, s, init), RegLabel(cfg, before, l).value;
        assert (steps + [step])[..|steps|] == steps;
        assert Projected(cfg, s, run) == steps + [step];
      } else {
        assert Projected(cfg, s, run) == Projected(cfg, s, init);
      }
    }
  }

  lemma {:induction false} ExecConcat(cfg: Config, s: Sys, a: seq<Label>, b: seq<Label>)
    ensures Exec(cfg, s, a + b) == Exec(cfg, Exec(cfg, s, a), b)
  {
    if b == [] {
      assert a + b == a;
    } else {
      ExecConcat(cfg, s, a, b[..|b| - 1]);
      assert (a + b)[..|a + b| - 1] == a + b[..|b| - 1];
    }
  }

  /** The batch names this key: its device allows tracking and sent a good advertising id. */
  ghost predicate Identifies(batch: Batch, k: Key) {
    && batch.device.ifaTrackingEnabled
    && batch.device.ifa.Some? && Uuid.Parse(batch.device.ifa.value) == Some(k.ifa) && Uuid.HasNonzeroDigit(k.ifa)
    && Uuid.Parse(batch.appId) == Some(k.app)
  }

  lemma KeyOfBatch(incoming: Incoming, k: Key)
    ensures Reg.KeyFor(InputOf(incoming)) == Some(k) <==> Identifies(incoming.batch, k)
  {
  }

  /** Once a device's key is settled on an id, and while no read of that key fails, every
      registration of the device that sends no usable id is answered with a ciphertext of
      exactly that id, and published under it. */
  lemma SettledDeviceIsAnswered(cfg: Config, s: Sys, run: seq<Label>, more: seq<Label>, k: Key, v: Uuid.Uuid, r: nat)
    requires Init(s)
    requires var t := Exec(cfg, s, run);
             Reg.Settled(t.registration, k, v) && Reg.ReadsSucceed(t.registration, Projected(cfg, t, more), k)
    requires var u := Exec(cfg, Exec(cfg, s, run), more);
             && r < |u.requests| && u.requests[r].stage.Accepted? && Registers(u.requests[r].incoming)
             && SentNoDevice(cfg, u.requests[r].incoming.headers) && Identifies(u.requests[r].incoming.batch, k)
    requires var t := Exec(cfg, s, run);
             !(r in t.registration.requests && t.registration.requests[r].phase.Done?)
    ensures var stage := Exec(cfg, Exec(cfg, s, run), more).requests[r].stage;
            && |stage.results| == 1 && stage.results[0].registration.Some?
            && Unwrap(cfg.aead, stage.results[0].registration.value.deviceId) == Clear(Uuid.Print(v))
            && stage.record.proto.header.recipientId == Some(Uuid.Print(v))
  {
    var t := Exec(cfg, s, run);
    ExecConcat(cfg, s, run, more);
    var cleartext := IdentityAgrees(cfg, s, run + more, r);
    GatewayRunsProtocol(cfg, t, more);
    Reg.BindingIsStable(t.registration, Projected(cfg, t, more), k, v);
    KeyOfBatch(Exec(cfg, t, more).requests[r].incoming, k);
    assert Reg.AnsweredSince(t.registration, Exec(cfg, t, more).registration, r, k);
  }

  /** A successful registration that had to go through the table for this key. */
  ghost predicate RegisteredOn(cfg: Config, t: Sys, r: nat, k: Key) {
    && r < |t.requests| && t.requests[r].stage.Accepted? && Registers(t.requests[r].incoming)
    && SentNoDevice(cfg, t.requests[r].incoming.headers) && Identifies(t.requests[r].incoming.batch, k)
  }

  /** From a table without the device's key: as long as no two different ids were generated for
      it, all successful registrations of the device are published under one recipient. */
  lemma RegistrationsAgree(cfg: Config, s: Sys, run: seq<Label>, k: Key, r: nat, q: nat)
    requires Init(s) && k !in s.registration.table
    requires |Reg.GeneratedIds(s.registration, Projected(cfg, s, run), k)| <= 1
    requires RegisteredOn(cfg, Exec(cfg, s, run), r, k) && RegisteredOn(cfg, Exec(cfg, s, run), q, k)
    ensures var t := Exec(cfg, s, run);
            && t.requests[r].stage.record.proto.header.recipientId.Some?
            && t.requests[r].stage.record.proto.header.recipientId
               == t.requests[q].stage.record.proto.header.recipientId
  {
    var t := Exec(cfg, s, run);
    var mine := IdentityAgrees(cfg, s, run, r);
    var other := IdentityAgrees(cfg, s, run, q);
    GatewayRunsProtocol(cfg, s, run);
    var steps := Projected(cfg, s, run);
    Reg.IdsAreGenerated(s.registration, steps, k);
    KeyOfBatch(t.requests[r].incoming, k);
    KeyOfBatch(t.requests[q].incoming, k);
    assert Reg.HasId(t.registration, r, k, mine) && Reg.HasId(t.registration, q, k, other);
    var ids := Reg.GeneratedIds(s.registration, steps, k);
    Reg.OneElementExactly(ids);
    var u :| u in ids && mine == Uuid.Print(u);
    var v :| v in ids && other == Uuid.Print(v);
  }
}
