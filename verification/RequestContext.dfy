/** What is known about a request: its headers, and where the device identity enters. */
module RequestContext {
  import opened Wrappers
  import opened Text
  import opened Encryption
  import Base64
  import Uuid

  datatype Platform = Ios | Android | Web | Unknown

  datatype DeviceId = DeviceId(ciphertext: Str, cleartext: Str)

  /** The headers that carry readable text. */
  datatype Headers = Headers(
    deviceId: Option<Str>,
    apiToken: Option<Str>,
    signature: Option<Str>,
    origin: Option<Str>
  )

  datatype Context = Context(
    appId: Str,
    platform: Platform,
    apiToken: Option<Str>,
    deviceId: Option<DeviceId>,
    signature: Option<Str>,
    origin: Option<Str>
  )

  /** A client that decrypts this id's ciphertext reads its clear text. */
  ghost predicate Agrees(aead: Aead, id: DeviceId) {
    Unwrap(aead, id.ciphertext) == Clear(id.cleartext)
  }

  /** Decrypting this header does not panic. */
  ghost predicate Survives(aead: Aead, headers: Headers) {
    headers.deviceId.Some? ==> Unwrap(aead, headers.deviceId.value) != Panics
  }

  /** A device id header that cannot be decrypted counts as absent. */
  ghost function FromHeaders(aead: Aead, headers: Headers, appId: Str, platform: Platform): (context: Context)
    ensures context.deviceId.Some? ==> Agrees(aead, context.deviceId.value)
  {
    var deviceId :=
      match headers.deviceId
      case None => None
      case Some(text) =>
        match Unwrap(aead, text)
        case Clear(cleartext) => Some(DeviceId(text, cleartext))
        case _ => None;
    Context(appId, platform, headers.apiToken, deviceId, headers.signature, headers.origin)
  }

  /** Each header ends up in its own place, and the device is there exactly if its header decrypts. */
  lemma ContextExactly(aead: Aead, headers: Headers, appId: Str, platform: Platform, context: Context)
    ensures context == FromHeaders(aead, headers, appId, platform) <==>
      && context.appId == appId && context.platform == platform
      && context.apiToken == headers.apiToken
      && context.signature == headers.signature
      && context.origin == headers.origin
      && forall c, t ::
           context.deviceId == Some(DeviceId(c, t)) <==> headers.deviceId == Some(c) && Unwrap(aead, c) == Clear(t)
  {
    var right := FromHeaders(aead, headers, appId, platform);
    assert forall c, t ::
      right.deviceId == Some(DeviceId(c, t)) <==> headers.deviceId == Some(c) && Unwrap(aead, c) == Clear(t);
    if forall c, t ::
      context.deviceId == Some(DeviceId(c, t)) <==> headers.deviceId == Some(c) && Unwrap(aead, c) == Clear(t) {
      SameDevice(context.deviceId, right.deviceId);
    }
  }

  lemma SameDevice(a: Option<DeviceId>, b: Option<DeviceId>)
    requires forall c, t :: a == Some(DeviceId(c, t)) <==> b == Some(DeviceId(c, t))
    ensures a == b
  {
    if a.Some? {
      assert a == Some(DeviceId(a.value.ciphertext, a.value.cleartext));
    } else if b.Some? {
      assert b == Some(DeviceId(b.value.ciphertext, b.value.cleartext));
    }
  }

  /** A header that cannot be decrypted is not an error: the device is just not known. */
  lemma GarbledHeaderIsAbsent(aead: Aead, headers: Headers, appId: Str, platform: Platform)
    requires headers.deviceId.Some?
    requires var text := headers.deviceId.value; !Base64.WellFormed(text) || 16 <= Base64.Symbols(text) < 38
    ensures Survives(aead, headers) && FromHeaders(aead, headers, appId, platform).deviceId.None?
  {
    NeverOpens(aead, headers.deviceId.value);
  }

  method NewContext(aead: Aead, headers: Headers, appId: Str, platform: Platform) returns (context: Context)
    requires Survives(aead, headers)
    ensures context == FromHeaders(aead, headers, appId, platform)
  {
    var deviceId: Option<DeviceId> := None;
    if headers.deviceId.Some? {
      var cleartext := Decrypt(aead, headers.deviceId.value);
      if cleartext.Some? {
        deviceId := Some(DeviceId(headers.deviceId.value, cleartext.value));
      }
    }
    context := Context(appId, platform, headers.apiToken, deviceId, headers.signature, headers.origin);
  }

  /** Clear text and ciphertext of an identifier, under a nonce. */
  ghost function Enveloped(aead: Aead, nonce: Str, cleartext: Str): DeviceId {
    DeviceId(Envelope(aead, nonce, cleartext), cleartext)
  }

  lemma EnvelopedAgrees(aead: Aead, nonce: Str, id: Uuid.Uuid)
    requires |nonce| == NONCE_LEN
    ensures Agrees(aead, Enveloped(aead, nonce, Uuid.Print(id)))
  {
    IdRoundTrip(aead, nonce, id);
  }

  /** A header made from an identifier brings that identifier back on the next request. */
  lemma HeaderBringsIdBack(aead: Aead, headers: Headers, nonce: Str, id: Uuid.Uuid, appId: Str, platform: Platform)
    requires |nonce| == NONCE_LEN
    requires headers.deviceId == Some(Enveloped(aead, nonce, Uuid.Print(id)).ciphertext)
    ensures Survives(aead, headers)
    ensures FromHeaders(aead, headers, appId, platform).deviceId == Some(Enveloped(aead, nonce, Uuid.Print(id)))
  {
    EnvelopedAgrees(aead, nonce, id);
  }

  const BAR: Byte := 124

  /** The Kafka key: application and device, so that a device's batches stay in order. */
  function RoutingKey(context: Context): Option<Str> {
    match context.deviceId
    case None => None
    case Some(id) => Some(context.appId + [BAR] + id.cleartext)
  }

  /** There is a key exactly for a known device: application, a bar, and the id in clear. */
  lemma RoutingKeyExactly(context: Context, key: Str)
    ensures RoutingKey(context) == Some(key) <==>
      context.deviceId.Some? && key == context.appId + Ascii("|") + context.deviceId.value.cleartext
  {
    assert Ascii("|") == [BAR];
  }
}
