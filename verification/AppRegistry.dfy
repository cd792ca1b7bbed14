/** The table of known applications: how it is built, replaced and consulted. */
module AppRegistry {
  import opened Wrappers
  import opened Text
  import opened Errors
  import opened RequestContext
  import opened EventBatch
  import Base64
  import Uuid

  datatype Application = Application(
    id: Str,
    token: Option<Str>,
    iosSecret: Option<Str>,
    androidSecret: Option<Str>,
    webSecret: Option<Str>
  )

  /** An application as configured: secrets still in hexadecimal. */
  datatype Entry = Entry(
    appId: Str,
    token: Option<Str>,
    ios: Option<Str>,
    android: Option<Str>,
    web: Option<Str>
  )

  type Table = map<Str, Application>

  function CreateKey(hex: Option<Str>): Option<Str> {
    if hex.Some? then Uuid.HexDecode(hex.value) else None
  }

  predicate IsHexDigit(b: Byte, value: int) {
    0 <= value < 16 && (b == "0123456789abcdef"[value] as int || b == "0123456789ABCDEF"[value] as int)
  }

  /** The column has two digits for each byte of the secret, the high one first. */
  ghost predicate Spells(column: Str, secret: Str) {
    && |column| == 2 * |secret|
    && forall i :: 0 <= i < |secret| ==>
         IsHexDigit(column[2 * i], secret[i] / 16) && IsHexDigit(column[2 * i + 1], secret[i] % 16)
  }

  /** The secret is there exactly if there is a column that spells one. */
  ghost predicate DecodedFrom(secret: Option<Str>, column: Option<Str>) {
    forall s :: secret == Some(s) <==> column.Some? && Spells(column.value, s)
  }

  lemma KeySpelled(column: Option<Str>)
    ensures DecodedFrom(CreateKey(column), column)
  {
    forall s ensures CreateKey(column) == Some(s) <==> column.Some? && Spells(column.value, s) {
      if column.Some? {
        SpelledExactly(column.value, s);
      }
    }
  }

  lemma SpelledExactly(column: Str, secret: Str)
    ensures Uuid.HexDecode(column) == Some(secret) <==> Spells(column, secret)
  {
    forall b: Byte, n: Uuid.Nibble ensures Uuid.HexValue(b) == Some(n) <==> IsHexDigit(b, n) {
      Uuid.HexValueExactly(b, n);
    }
    if Spells(column, secret) {
      forall i | 0 <= i < |column| ensures Uuid.HexValue(column[i]).Some? {
        var j := i / 2;
        assert IsHexDigit(column[2 * j], secret[j] / 16) && IsHexDigit(column[2 * j + 1], secret[j] % 16);
        assert i == 2 * j || i == 2 * j + 1;
      }
      var decoded := Uuid.HexDecode(column).value;
      forall i | 0 <= i < |secret| ensures decoded[i] == secret[i] {
        assert IsHexDigit(column[2 * i], secret[i] / 16) && IsHexDigit(column[2 * i + 1], secret[i] % 16);
      }
      assert decoded == secret;
    }
  }

  function CreateApp(e: Entry): Application {
    Application(e.appId, e.token, CreateKey(e.ios), CreateKey(e.android), CreateKey(e.web))
  }

  /** The fold that inserts entry after entry. */
  function TableOf(entries: seq<Entry>): Table {
    if entries == [] then map[]
    else
      var last := entries[|entries| - 1];
      TableOf(entries[..|entries| - 1])[last.appId := CreateApp(last)]
  }

  ghost predicate IsLastFor(entries: seq<Entry>, appId: Str, i: nat) {
    && i < |entries|
    && entries[i].appId == appId
    && forall j :: i < j < |entries| ==> entries[j].appId != appId
  }

  /** The application as configured, its three secrets decoded. */
  ghost predicate IsMadeFrom(app: Application, e: Entry) {
    && app.id == e.appId && app.token == e.token
    && DecodedFrom(app.iosSecret, e.ios)
    && DecodedFrom(app.androidSecret, e.android)
    && DecodedFrom(app.webSecret, e.web)
  }

  lemma MadeFrom(e: Entry)
    ensures IsMadeFrom(CreateApp(e), e)
  {
    KeySpelled(e.ios);
    KeySpelled(e.android);
    KeySpelled(e.web);
  }

  /** Every lookup answers as a scan for the last entry with that id. */
  lemma {:induction false} TableAgreesWithScan(entries: seq<Entry>, appId: Str)
    ensures appId in TableOf(entries) <==> exists i: nat :: IsLastFor(entries, appId, i)
    ensures forall i: nat :: IsLastFor(entries, appId, i) ==>
      appId in TableOf(entries) && TableOf(entries)[appId] == CreateApp(entries[i])
                               && IsMadeFrom(TableOf(entries)[appId], entries[i])
  {
    forall i: nat | i < |entries| ensures IsMadeFrom(CreateApp(entries[i]), entries[i]) {
      MadeFrom(entries[i]);
    }
    if entries != [] {
      var n := |entries| - 1;
      TableAgreesWithScan(entries[..n], appId);
      if entries[n].appId == appId {
        assert IsLastFor(entries, appId, n);
      } else {
        assert forall i: nat :: IsLastFor(entries, appId, i) <==> IsLastFor(entries[..n], appId, i);
      }
    }
  }

  // ---------------------------------------------------------------------------
  // Refreshing
  // ---------------------------------------------------------------------------

  datatype Row = Row(appId: Uuid.Uuid, token: Option<Str>, ios: Option<Str>, web: Option<Str>, android: Option<Str>)

  datatype Refresh = ConnectFailed | QueryFailed | NoRows | Rows(rows: seq<Row>)

  function EntryOf(row: Row): Entry {
    Entry(Uuid.Print(row.appId), row.token, row.ios, row.android, row.web)
  }

  function EntriesOf(rows: seq<Row>): (entries: seq<Entry>)
    ensures |entries| == |rows|
    ensures forall i :: 0 <= i < |rows| ==> entries[i] == EntryOf(rows[i])
  {
    seq(|rows|, i requires 0 <= i < |rows| => EntryOf(rows[i]))
  }

  function Refreshed(table: Table, refresh: Refresh): Table {
    match refresh
    case Rows(rows) => TableOf(EntriesOf(rows))
    case NoRows => map[]
    case _ => table
  }

  /** A refresh that fails changes nothing; one without rows closes the gateway. */
  lemma RefreshWithoutRows(table: Table, refresh: Refresh)
    ensures refresh.ConnectFailed? || refresh.QueryFailed? ==> Refreshed(table, refresh) == table
    ensures refresh.NoRows? || refresh == Rows([]) ==> forall appId :: appId !in Refreshed(table, refresh)
  {
  }

  ghost predicate IsLastRow(rows: seq<Row>, app: Uuid.Uuid, i: nat) {
    i < |rows| && rows[i].appId == app && forall j :: i < j < |rows| ==> rows[j].appId != app
  }

  /** After a refresh that got through, an application is found exactly when a row has it, and
      it has the token and the decoded secrets of the last such row. */
  lemma RefreshedFromRows(table: Table, rows: seq<Row>, app: Uuid.Uuid)
    ensures var live := Refreshed(table, Rows(rows));
            && (Uuid.Print(app) in live <==> exists i :: 0 <= i < |rows| && rows[i].appId == app)
            && forall i: nat :: IsLastRow(rows, app, i) ==>
                 var found := live[Uuid.Print(app)];
                 && found.id == Uuid.Print(app) && found.token == rows[i].token
                 && DecodedFrom(found.iosSecret, rows[i].ios)
                 && DecodedFrom(found.androidSecret, rows[i].android)
                 && DecodedFrom(found.webSecret, rows[i].web)
  {
    var entries, id := EntriesOf(rows), Uuid.Print(app);
    TableAgreesWithScan(entries, id);
    forall i | 0 <= i < |rows| ensures entries[i].appId == id <==> rows[i].appId == app {
      if entries[i].appId == id {
        Uuid.PrintIsInjective(rows[i].appId, app);
      }
    }
    forall i: nat | IsLastRow(rows, app, i) ensures IsLastFor(entries, id, i) {}
    if i: nat :| i < |rows| && rows[i].appId == app {
      var _ := LastRow(rows, app, i);
    }
  }

  /** The token found for an application is that of the last row that has it. */
  lemma TokenFromRows(table: Table, rows: seq<Row>, app: Uuid.Uuid, token: Str)
    ensures TokenIn(Refreshed(table, Rows(rows)), Uuid.Print(app)) == Some(token) <==>
      exists i: nat :: IsLastRow(rows, app, i) && rows[i].token == Some(token)
  {
    RefreshedFromRows(table, rows, app);
    if i: nat :| i < |rows| && rows[i].appId == app {
      var j := LastRow(rows, app, i);
      assert forall k: nat :: IsLastRow(rows, app, k) ==> k == j;
    }
  }

  lemma {:induction false} LastRow(rows: seq<Row>, app: Uuid.Uuid, i: nat) returns (j: nat)
    requires i < |rows| && rows[i].appId == app
    ensures IsLastRow(rows, app, j)
    decreases |rows| - i
  {
    if IsLastRow(rows, app, i) {
      j := i;
    } else {
      var k: nat :| i < k < |rows| && rows[k].appId == app;
      j := LastRow(rows, app, k);
    }
  }

  // ---------------------------------------------------------------------------
  // Validation
  // ---------------------------------------------------------------------------

  /** The parts of the configuration that validation reads; `verify` checks a signature. */
  datatype Policy = Policy(allowEmptySignature: bool, defaultToken: Str, verify: (Str, Str, Str) -> bool)

  function TokenIn(table: Table, appId: Str): Option<Str> {
    if appId in table then table[appId].token else None
  }

  function SecretFor(app: Application, platform: Platform): Option<Str> {
    match platform
    case Ios => app.iosSecret
    case Android => app.androidSecret
    case Web => app.webSecret
    case Unknown => None
  }

  function Validate(policy: Policy, table: Table, batch: Batch, context: Context, raw: Str): Result<(), GatewayError> {
    if batch.appId !in table then Err(AppDoesNotExist)
    else
      var app := table[batch.appId];
      var validToken := if app.token.Some? then app.token.value else policy.defaultToken;
      if context.apiToken.Some? && context.apiToken.value != validToken then Err(InvalidToken)
      else if batch.events == [] then Err(InvalidPayload)
      else if policy.allowEmptySignature then Ok(())
      else if context.signature.None? then Err(MissingSignature)
      else
        match SecretFor(app, PlatformOf(batch.device))
        case None => Err(AppDoesNotExist)
        case Some(secret) =>
          match Base64.Decode(context.signature.value)
          case None => Err(InvalidSignature)
          case Some(signature) => if policy.verify(secret, raw, signature) then Ok(()) else Err(InvalidSignature)
  }

  /** The header is a base64 text of a signature of the raw request. */
  ghost predicate SignatureMatches(policy: Policy, secret: Str, raw: Str, header: Str) {
    exists signature :: Base64.Denotes(header, signature) && policy.verify(secret, raw, signature)
  }

  ghost predicate SignedWith(policy: Policy, secret: Option<Str>, header: Option<Str>, raw: Str) {
    secret.Some? && header.Some? && SignatureMatches(policy, secret.value, raw, header.value)
  }

  /** The raw request is signed with the secret its application has for the platform that the
      device names. */
  ghost predicate Signed(policy: Policy, app: Application, device: Device, header: Option<Str>, raw: Str) {
    || (OnIos(device) && SignedWith(policy, app.iosSecret, header, raw))
    || (OnAndroid(device) && SignedWith(policy, app.androidSecret, header, raw))
    || (OnWeb(device) && SignedWith(policy, app.webSecret, header, raw))
  }

  predicate HasSecret(app: Application, device: Device) {
    || (OnIos(device) && app.iosSecret.Some?)
    || (OnAndroid(device) && app.androidSecret.Some?)
    || (OnWeb(device) && app.webSecret.Some?)
  }

  lemma MatchesExactlyDecoded(policy: Policy, secret: Str, raw: Str, header: Str)
    ensures SignatureMatches(policy, secret, raw, header) <==>
      Base64.Decode(header).Some? && policy.verify(secret, raw, Base64.Decode(header).value)
  {
    Base64.DecodeDenotes(header);
    if SignatureMatches(policy, secret, raw, header) {
      var signature :| Base64.Denotes(header, signature) && policy.verify(secret, raw, signature);
      Base64.DecodesExactly(header, signature);
    }
  }

  ghost predicate TokenMismatch(policy: Policy, app: Application, token: Option<Str>) {
    token.Some? && token != app.token && !(app.token.None? && token == Some(policy.defaultToken))
  }

  /** What every accepted request satisfies, by its token and signature headers. A request
      without a token is not refused. */
  ghost predicate Admissible(
    policy: Policy, table: Table, batch: Batch, token: Option<Str>, signature: Option<Str>, raw: Str
  ) {
    && batch.appId in table
    && batch.events != []
    && !TokenMismatch(policy, table[batch.appId], token)
    && (policy.allowEmptySignature || Signed(policy, table[batch.appId], batch.device, signature, raw))
  }

  lemma AcceptsExactlyAdmissible(policy: Policy, table: Table, batch: Batch, context: Context, raw: Str)
    ensures Validate(policy, table, batch, context, raw).Ok? <==>
      Admissible(policy, table, batch, context.apiToken, context.signature, raw)
  {
    PlatformExactly(batch.device);
    if batch.appId in table && context.signature.Some? {
      var secret := SecretFor(table[batch.appId], PlatformOf(batch.device));
      if secret.Some? {
        MatchesExactlyDecoded(policy, secret.value, raw, context.signature.value);
      }
    }
  }

  /** Leaving the token out never turns an accepted request into a refused one, and no request
      without a token is refused for it. */
  lemma TokenMayBeOmitted(policy: Policy, table: Table, batch: Batch, context: Context, raw: Str)
    ensures var without := Validate(policy, table, batch, context.(apiToken := None), raw);
            without != Err(InvalidToken) && (Validate(policy, table, batch, context, raw).Ok? ==> without.Ok?)
  {
  }

  /** A request without a token that is accepted although its application has one. */
  lemma TokenlessIsAccepted(policy: Policy, app: Application, batch: Batch, context: Context, raw: Str)
    requires policy.allowEmptySignature && batch.events != [] && context.apiToken.None? && app.token.Some?
    ensures Validate(policy, map[batch.appId := app], batch, context, raw).Ok?
  {
  }

  /** Each refusal names the first thing that is wrong; a platform without a secret is refused
      as an unknown application. */
  ghost predicate Refusal(
    policy: Policy, table: Table, batch: Batch, token: Option<Str>, signature: Option<Str>, raw: Str, e: GatewayError
  ) {
    if batch.appId !in table then e == AppDoesNotExist
    else if TokenMismatch(policy, table[batch.appId], token) then e == InvalidToken
    else if batch.events == [] then e == InvalidPayload
    else if policy.allowEmptySignature then false
    else if signature.None? then e == MissingSignature
    else if !HasSecret(table[batch.appId], batch.device) then e == AppDoesNotExist
    else e == InvalidSignature && !Signed(policy, table[batch.appId], batch.device, signature, raw)
  }

  lemma RefusesExactly(policy: Policy, table: Table, batch: Batch, context: Context, raw: Str, e: GatewayError)
    ensures Validate(policy, table, batch, context, raw) == Err(e) <==>
      Refusal(policy, table, batch, context.apiToken, context.signature, raw, e)
  {
    PlatformExactly(batch.device);
    AcceptsExactlyAdmissible(policy, table, batch, context, raw);
  }

  // ---------------------------------------------------------------------------
  // The live registry
  // ---------------------------------------------------------------------------

  /** One turn of the updater: what it reads from the control flag, and how its refresh ends. */
  datatype Turn = Turn(keepRunning: bool, refresh: Refresh)

  predicate Replaces(refresh: Refresh) {
    refresh.Rows? || refresh.NoRows?
  }

  ghost predicate Running(turns: seq<Turn>, n: nat) {
    n <= |turns| && forall i :: 0 <= i < n ==> turns[i].keepRunning
  }

  /** The i-th of the first `n` turns is the last whose refresh got through. */
  ghost predicate LastReplacing(turns: seq<Turn>, n: nat, i: nat) {
    && i < n <= |turns|
    && Replaces(turns[i].refresh)
    && forall j :: i < j < n ==> !Replaces(turns[j].refresh)
  }

  class Registry {
    const policy: Policy
    const hasPool: bool
    var apps: Table

    constructor (policy: Policy, hasPool: bool, apps: Table)
      ensures this.policy == policy && this.hasPool == hasPool && this.apps == apps
    {
      this.policy, this.hasPool, this.apps := policy, hasPool, apps;
    }

    /** Without a database there is nothing to refresh from, and that is not an error. */
    method UpdateApps(refresh: Refresh) returns (ok: bool)
      modifies this
      ensures apps == if hasPool then Refreshed(old(apps), refresh) else old(apps)
      ensures ok <==> !hasPool || Replaces(refresh)
    {
      ok := true;
      if hasPool {
        match refresh {
          case ConnectFailed => ok := false;
          case QueryFailed => ok := false;
          case NoRows => apps := map[];
          case Rows(rows) =>
            var acc: Table := map[];
            for i := 0 to |rows|
              modifies {}
              invariant acc == TableOf(EntriesOf(rows)[..i])
            {
              var row := rows[i];
              var id := Uuid.Print(row.appId);
              var app := CreateApp(Entry(id, row.token, row.ios, row.android, row.web));
              acc := acc[id := app];
              assert EntriesOf(rows)[..i + 1][..i] == EntriesOf(rows)[..i];
            }
            assert EntriesOf(rows)[..|rows|] == EntriesOf(rows);
            apps := acc;
        }
      }
    }

    method TokenFor(appId: Str) returns (token: Option<Str>)
      ensures token == TokenIn(apps, appId)
    {
      token := if appId in apps then apps[appId].token else None;
    }

    /** Loops until the control flag is down. The live table is that of the last refresh that
        got through, or the one before if none did. */
    method RunUpdater(turns: seq<Turn>) returns (done: nat)
      modifies this
      ensures Running(turns, done) && (done < |turns| ==> !turns[done].keepRunning)
      ensures !hasPool || (forall i :: 0 <= i < done ==> !Replaces(turns[i].refresh)) ==> apps == old(apps)
      ensures hasPool ==> forall i: nat :: LastReplacing(turns, done, i) ==> apps == Refreshed(map[], turns[i].refresh)
    {
      done := 0;
      while done < |turns| && turns[done].keepRunning
        invariant Running(turns, done)
        invariant !hasPool || (forall i :: 0 <= i < done ==> !Replaces(turns[i].refresh)) ==> apps == old(apps)
        invariant hasPool ==>
          forall i: nat :: LastReplacing(turns, done, i) ==> apps == Refreshed(map[], turns[i].refresh)
      {
        var _ := UpdateApps(turns[done].refresh);
        done := done + 1;
      }
    }
  }
}
