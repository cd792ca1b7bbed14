/** A batch of events: its conversion to the published form. */
module EventBatch {
  import opened Wrappers
  import opened Text
  import opened Properties
  import opened RequestContext
  import Timestamp

  datatype Event = Event(
    id: Str,
    timestamp: U64,
    name: Str,
    properties: Map,
    sessionId: Option<Str>,
    externalUserId: Option<Str>,
    referenceId: Option<Str>
  )

  datatype Device = Device(platform: Option<Str>, osName: Option<Str>, ifa: Option<Str>, ifaTrackingEnabled: bool)

  datatype Batch = Batch(appId: Str, events: seq<Event>, device: Device, recipientId: Option<Str>)

  datatype EventData = EventData(
    properties: seq<Property>,
    id: Str,
    sessionId: Option<Str>,
    timestamp: Str,
    name: Str,
    externalUserId: Option<Str>,
    referenceId: Option<Str>
  )

  datatype Header = Header(createdAt: int, source: Str, type_: Str, feed: Str, recipientId: Option<Str>)

  datatype ProtoBatch = ProtoBatch(header: Header, device: Device, events: seq<EventData>)

  const BATCH_TYPE: Str := Ascii("events.SDKEventBatch")
  const FEED: Str := Ascii("xorc")

  /** The platform named by the client, or else guessed from its operating system. */
  function PlatformOf(device: Device): Platform {
    if device.platform == Some(Ascii("android")) then Android
    else if device.platform == Some(Ascii("ios")) then Ios
    else if device.platform == Some(Ascii("web")) then Web
    else if device.osName == Some(Ascii("iOS")) || device.osName == Some(Ascii("iPhone OS")) then Ios
    else if device.osName == Some(Ascii("Android")) then Android
    else Unknown
  }

  /** The client names one of the platforms the gateway knows. */
  predicate NamesPlatform(device: Device) {
    device.platform.Some? && device.platform.value in [Ascii("android"), Ascii("ios"), Ascii("web")]
  }

  predicate OnAndroid(device: Device) {
    device.platform == Some(Ascii("android")) || (!NamesPlatform(device) && device.osName == Some(Ascii("Android")))
  }

  predicate OnIos(device: Device) {
    || device.platform == Some(Ascii("ios"))
    || (!NamesPlatform(device) && device.osName.Some? && device.osName.value in [Ascii("iOS"), Ascii("iPhone OS")])
  }

  predicate OnWeb(device: Device) {
    device.platform == Some(Ascii("web"))
  }

  /** The name decides, and only where it is none of the three the operating system does; it
      never makes a device a web one. */
  lemma PlatformExactly(device: Device)
    ensures PlatformOf(device) == Android <==> OnAndroid(device)
    ensures PlatformOf(device) == Ios <==> OnIos(device)
    ensures PlatformOf(device) == Web <==> OnWeb(device)
    ensures PlatformOf(device) == Unknown <==> !OnAndroid(device) && !OnIos(device) && !OnWeb(device)
  {
    var android, ios, web := Ascii("android"), Ascii("ios"), Ascii("web");
    assert android[0] == 97 && ios[0] == 105 && web[0] == 119;
    var osAndroid, osIos, osIphone := Ascii("Android"), Ascii("iOS"), Ascii("iPhone OS");
    assert osAndroid[0] == 65 && osIos[0] == 105 && osIphone[0] == 105;
  }

  predicate IsRegister(event: Event) {
    event.name == Ascii("xorc_register")
  }

  /** The first register event of the batch, if there is one. */
  function FirstRegister(events: seq<Event>): (i: Option<nat>)
    ensures i.None? <==> forall j :: 0 <= j < |events| ==> events[j].name != Ascii("xorc_register")
    ensures i.Some? ==> i.value < |events| && events[i.value].name == Ascii("xorc_register")
                        && forall j :: 0 <= j < i.value ==> events[j].name != Ascii("xorc_register")
  {
    if events == [] then None
    else if IsRegister(events[0]) then Some(0)
    else
      match FirstRegister(events[1..])
      case None => None
      case Some(i) =>
        assert forall j :: 1 <= j < |events| ==> events[j] == events[1..][j - 1];
        Some(i + 1)
  }

  ghost predicate InOrder(events: seq<Event>) {
    forall i, j :: 0 <= i < j < |events| ==> events[i].timestamp <= events[j].timestamp
  }

  /** What an unstable sort by timestamp may leave: equal timestamps come in any order. */
  ghost predicate IsOrdering(before: seq<Event>, after: seq<Event>) {
    InOrder(after) && multiset(after) == multiset(before)
  }

  function DataOf(event: Event): EventData {
    EventData(
      Flatten([], event.properties),
      event.id,
      event.sessionId,
      Timestamp.Print(event.timestamp),
      event.name,
      event.externalUserId,
      event.referenceId
    )
  }

  function AllData(events: seq<Event>): seq<EventData> {
    Mapped(DataOf, events)
  }

  /** The recipient is the device known to the gateway, or else the one the client named. */
  function Recipient(batch: Batch, context: Context): Option<Str> {
    if context.deviceId.Some? then Some(context.deviceId.value.cleartext) else batch.recipientId
  }

  function ProtoOf(batch: Batch, order: seq<Event>, context: Context, createdAt: int): ProtoBatch {
    ProtoBatch(
      Header(createdAt, batch.appId, BATCH_TYPE, FEED, Recipient(batch, context)),
      batch.device,
      AllData(order)
    )
  }

  /** Puts an event behind those that are not later. */
  method InsertByTime(sorted: seq<Event>, event: Event) returns (result: seq<Event>)
    requires InOrder(sorted)
    ensures InOrder(result) && multiset(result) == multiset(sorted) + multiset{event}
  {
    var k := |sorted|;
    while k > 0 && sorted[k - 1].timestamp > event.timestamp
      invariant 0 <= k <= |sorted|
      invariant forall j :: k <= j < |sorted| ==> event.timestamp <= sorted[j].timestamp
    {
      k := k - 1;
    }
    result := sorted[..k] + [event] + sorted[k..];
    InsertAt(sorted, event, k);
  }

  lemma InsertAt(sorted: seq<Event>, event: Event, k: nat)
    requires k <= |sorted| && InOrder(sorted)
    requires k > 0 ==> sorted[k - 1].timestamp <= event.timestamp
    requires forall j :: k <= j < |sorted| ==> event.timestamp <= sorted[j].timestamp
    ensures var result := sorted[..k] + [event] + sorted[k..];
            InOrder(result) && multiset(result) == multiset(sorted) + multiset{event}
  {
    assert sorted == sorted[..k] + sorted[k..];
    InsertKeepsOrder(sorted[..k], event, sorted[k..]);
  }

  lemma InsertKeepsOrder(before: seq<Event>, event: Event, after: seq<Event>)
    requires InOrder(before + after)
    requires before != [] ==> before[|before| - 1].timestamp <= event.timestamp
    requires forall j :: 0 <= j < |after| ==> event.timestamp <= after[j].timestamp
    ensures InOrder(before + [event] + after)
  {
    var all, result := before + after, before + [event] + after;
    forall i | 0 <= i < |before| ensures before[i].timestamp <= event.timestamp {
      assert all[i] == before[i] && all[|before| - 1] == before[|before| - 1];
    }
    forall i, j | 0 <= i < j < |result| ensures result[i].timestamp <= result[j].timestamp {
      var i', j' := if i > |before| then i - 1 else i, if j > |before| then j - 1 else j;
      assert i != |before| ==> result[i] == all[i'];
      assert j != |before| ==> result[j] == all[j'];
    }
  }

  lemma {:induction false} PlaceFor(sorted: seq<Event>, event: Event) returns (k: nat)
    requires InOrder(sorted)
    ensures k <= |sorted| && (k > 0 ==> sorted[k - 1].timestamp <= event.timestamp)
    ensures forall j :: k <= j < |sorted| ==> event.timestamp <= sorted[j].timestamp
  {
    var n := |sorted| - 1;
    if sorted == [] || sorted[n].timestamp <= event.timestamp {
      k := |sorted|;
    } else {
      k := PlaceFor(sorted[..n], event);
    }
  }

  lemma {:induction false} OrderingExists(events: seq<Event>) returns (order: seq<Event>)
    ensures IsOrdering(events, order)
  {
    if events == [] {
      order := [];
    } else {
      var n := |events| - 1;
      var sorted := OrderingExists(events[..n]);
      var k := PlaceFor(sorted, events[n]);
      InsertAt(sorted, events[n], k);
      order := sorted[..k] + [events[n]] + sorted[k..];
      assert events == events[..n] + [events[n]];
    }
  }

  /** The batch as the handler owns it: recipient and events are overwritten on the way out. */
  class OwnedBatch {
    const appId: Str
    const device: Device
    var events: seq<Event>
    var recipientId: Option<Str>

    constructor (batch: Batch)
      ensures Value() == batch
    {
      appId, device, events, recipientId := batch.appId, batch.device, batch.events, batch.recipientId;
    }

    function Value(): Batch
      reads this
    {
      Batch(appId, events, device, recipientId)
    }

    method SortByTimestamp()
      modifies this`events
      ensures IsOrdering(old(events), events)
    {
      var given, sorted: seq<Event> := events, [];
      for i := 0 to |given|
        invariant InOrder(sorted) && multiset(sorted) == multiset(given[..i])
      {
        sorted := InsertByTime(sorted, given[i]);
        assert given[..i + 1] == given[..i] + [given[i]];
      }
      assert given[..|given|] == given;
      events := sorted;
    }

    method IntoProto(context: Context, createdAt: int) returns (proto: ProtoBatch)
      modifies this
      ensures IsOrdering(old(events), events)
      ensures recipientId == Recipient(old(Value()), context)
      ensures proto == ProtoOf(old(Value()), events, context, createdAt)
      ensures proto.device == device && proto.header.source == appId && proto.header.recipientId == recipientId
      ensures |proto.events| == |events| && forall i :: 0 <= i < |events| ==> Conveys(proto.events[i], events[i])
    {
      ghost var given := Value();
      if context.deviceId.Some? {
        recipientId := Some(context.deviceId.value.cleartext);
      }
      SortByTimestamp();
      var order, data: seq<EventData> := events, [];
      for i := 0 to |order|
        modifies {}
        invariant data == AllData(order[..i])
      {
        var e := order[i];
        var flat := FlatProperties(e.properties);
        data := data + [EventData(flat, e.id, e.sessionId, Timestamp.Print(e.timestamp), e.name,
                                  e.externalUserId, e.referenceId)];
      }
      assert order[..|order|] == order;
      proto := ProtoBatch(Header(createdAt, appId, BATCH_TYPE, FEED, recipientId), device, data);
      PublishedInOrder(given, order, context, createdAt);
    }
  }

  // ---------------------------------------------------------------------------
  // Nothing is lost, and the published timestamps ascend
  // ---------------------------------------------------------------------------

  function Mapped<A, B>(f: A -> B, s: seq<A>): (t: seq<B>)
    ensures |t| == |s|
    ensures forall i :: 0 <= i < |s| ==> t[i] == f(s[i])
  {
    seq(|s|, i requires 0 <= i < |s| => f(s[i]))
  }

  lemma MappedAround<A, B>(f: A -> B, before: seq<A>, x: A, after: seq<A>)
    ensures multiset(before + [x] + after) == multiset(before + after) + multiset{x}
    ensures multiset(Mapped(f, before + [x] + after)) == multiset(Mapped(f, before + after)) + multiset{f(x)}
  {
    assert Mapped(f, before + [x] + after) == Mapped(f, before) + [f(x)] + Mapped(f, after);
    assert Mapped(f, before + after) == Mapped(f, before) + Mapped(f, after);
  }

  lemma Locate<A>(s: seq<A>, x: A) returns (before: seq<A>, after: seq<A>)
    requires x in multiset(s)
    ensures s == before + [x] + after
  {
    var i: nat :| i < |s| && s[i] == x;
    before, after := s[..i], s[i + 1..];
  }

  lemma SameRest<A>(x: A, rest: seq<A>, before: seq<A>, after: seq<A>)
    requires multiset([x] + rest) == multiset(before + [x] + after)
    ensures multiset(rest) == multiset(before + after)
  {
    var m := multiset([x] + rest);
    assert m == multiset{x} + multiset(rest) && m == multiset(before + after) + multiset{x};
    assert multiset(rest) == m - multiset{x};
  }

  lemma OneMoreStaysPermuted<A, B>(f: A -> B, x: A, rest: seq<A>, before: seq<A>, after: seq<A>)
    requires multiset(Mapped(f, rest)) == multiset(Mapped(f, before + after))
    ensures multiset(Mapped(f, [x] + rest)) == multiset(Mapped(f, before + [x] + after))
  {
    MappedAround(f, before, x, after);
    assert Mapped(f, [x] + rest) == [f(x)] + Mapped(f, rest);
  }

  lemma {:induction false} PermutedStaysPermuted<A, B>(f: A -> B, a: seq<A>, b: seq<A>)
    requires multiset(a) == multiset(b)
    ensures multiset(Mapped(f, a)) == multiset(Mapped(f, b))
    decreases |a|
  {
    if a == [] {
      assert |multiset(b)| == 0;
    } else {
      var x, rest := a[0], a[1..];
      assert a == [x] + rest && x in multiset(a);
      var before, after := Locate(b, x);
      SameRest(x, rest, before, after);
      PermutedStaysPermuted(f, rest, before + after);
      OneMoreStaysPermuted(f, x, rest, before, after);
    }
  }

  /** The published form of an event: every field in its place, the time in decimal, the
      properties as one entry for each leaf of their tree. */
  ghost predicate Conveys(data: EventData, event: Event) {
    && data.id == event.id
    && data.name == event.name
    && data.sessionId == event.sessionId
    && data.externalUserId == event.externalUserId
    && data.referenceId == event.referenceId
    && data.timestamp == Timestamp.Print(event.timestamp)
    && data.properties == Keyed([], Leaves(event.properties))
  }

  /** The published events are the accepted ones, each with its own data, and their printed
      timestamps parse back to a non-decreasing sequence. */
  lemma PublishedInOrder(batch: Batch, order: seq<Event>, context: Context, createdAt: int)
    requires IsOrdering(batch.events, order)
    ensures var data := ProtoOf(batch, order, context, createdAt).events;
            && multiset(order) == multiset(batch.events)
            && multiset(data) == multiset(AllData(batch.events))
            && |data| == |order|
            && (forall i :: 0 <= i < |data| ==> Conveys(data[i], order[i]))
            && (forall i :: 0 <= i < |data| ==> Timestamp.Parse(data[i].timestamp) == Some(order[i].timestamp))
            && (forall i, j :: 0 <= i < j < |data| ==>
                  Timestamp.Parse(data[i].timestamp).value <= Timestamp.Parse(data[j].timestamp).value)
  {
    PermutedStaysPermuted(DataOf, batch.events, order);
    var data := AllData(order);
    forall i | 0 <= i < |data| ensures Timestamp.Parse(data[i].timestamp) == Some(order[i].timestamp) {
      Timestamp.ParsePrint(order[i].timestamp);
    }
    forall i | 0 <= i < |data| ensures Conveys(data[i], order[i]) {
      FlattenIsKeyedLeaves(order[i].properties);
    }
  }

  /** The rest of the published batch: whose it is, from where, and the device as it came. */
  lemma PublishedHeader(batch: Batch, order: seq<Event>, context: Context, createdAt: int)
    ensures var proto := ProtoOf(batch, order, context, createdAt);
            && proto.device == batch.device
            && proto.header.createdAt == createdAt
            && proto.header.source == batch.appId
            && proto.header.type_ == Ascii("events.SDKEventBatch")
            && proto.header.feed == Ascii("xorc")
            && (context.deviceId.Some? ==> proto.header.recipientId == Some(context.deviceId.value.cleartext))
            && (context.deviceId.None? ==> proto.header.recipientId == batch.recipientId)
  {
  }
}
