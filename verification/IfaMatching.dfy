/** The table that remembers which device an advertising id belongs to. */
module IfaMatching {
  import opened Wrappers
  import opened Text
  import opened Uuid

  /** The primary key: application and advertising id. */
  datatype Key = Key(app: Uuid, ifa: Uuid)

  type Table = map<Key, Uuid>

  function ParseIfa(ifa: Option<Str>, trackingEnabled: bool): Option<Uuid> {
    match ifa
    case None => None
    case Some(text) =>
      match Parse(text)
      case None => None
      case Some(u) => if trackingEnabled && !IsNil(u) then Some(u) else None
  }

  function KeyOf(appId: Str, ifa: Option<Str>, trackingEnabled: bool): (key: Option<Key>)
    ensures forall k :: key == Some(k) <==>
      && trackingEnabled
      && ifa.Some? && Parse(ifa.value) == Some(k.ifa) && HasNonzeroDigit(k.ifa)
      && Parse(appId) == Some(k.app)
  {
    match ParseIfa(ifa, trackingEnabled)
    case None => None
    case Some(u) =>
      match Parse(appId)
      case None => None
      case Some(app) => Some(Key(app, u))
  }

  /** A query that fails, or a response without rows, reads as "not known". */
  datatype ReadFault = NoFault | QueryFailed | NoRows

  /** A write may be lost, or take effect although an error came back. */
  datatype WriteFault = Written | Lost | WrittenWithError

  function Get(table: Table, key: Option<Key>, fault: ReadFault): Option<Str> {
    if key.Some? && fault == NoFault && key.value in table then Some(Print(table[key.value])) else None
  }

  function Put(table: Table, key: Option<Key>, cleartext: Str, fault: WriteFault): (t: Table)
    ensures forall k :: key != Some(k) ==> (k in t <==> k in table) && (k in t ==> t[k] == table[k])
  {
    if key.Some? && Parse(cleartext).Some? && fault != Lost then table[key.value := Parse(cleartext).value] else table
  }

  datatype Counts = Counts(getOk: nat, getNotFound: nat, getError: nat, putOk: nat, putError: nat)

  datatype PutError = Refused | FaultyAppId | FaultyEntityId | Interrupted

  class IfaStore {
    var table: Table
    var counts: Counts

    constructor (table: Table)
      ensures this.table == table && counts == Counts(0, 0, 0, 0, 0)
    {
      this.table := table;
      counts := Counts(0, 0, 0, 0, 0);
    }

    method GetIdForIfa(appId: Str, ifa: Option<Str>, trackingEnabled: bool, fault: ReadFault) returns (id: Option<Str>)
      modifies this`counts
      ensures id == Get(table, KeyOf(appId, ifa, trackingEnabled), fault)
      ensures counts ==
        if KeyOf(appId, ifa, trackingEnabled).None? || fault == NoRows then old(counts)
        else if fault == QueryFailed then old(counts).(getError := old(counts).getError + 1)
        else if id.Some? then old(counts).(getOk := old(counts).getOk + 1)
        else old(counts).(getNotFound := old(counts).getNotFound + 1)
    {
      var parsed := ParseIfa(ifa, trackingEnabled);
      if parsed.None? {
        return None;
      }
      var app := Parse(appId);
      if app.None? {
        return None;
      }
      match fault {
        case QueryFailed =>
          counts := counts.(getError := counts.getError + 1);
          id := None;
        case NoRows =>
          id := None;
        case NoFault =>
          var key := Key(app.value, parsed.value);
          if key in table {
            counts := counts.(getOk := counts.getOk + 1);
            id := Some(Print(table[key]));
          } else {
            counts := counts.(getNotFound := counts.getNotFound + 1);
            id := None;
          }
      }
    }

    method PutIdForIfa(appId: Str, cleartext: Str, ifa: Option<Str>, trackingEnabled: bool, fault: WriteFault)
      returns (result: Result<(), PutError>)
      modifies this
      ensures table == Put(old(table), KeyOf(appId, ifa, trackingEnabled), cleartext, fault)
      ensures result.Ok? <==> KeyOf(appId, ifa, trackingEnabled).Some? && Parse(cleartext).Some? && fault == Written
      ensures counts.putOk - old(counts.putOk) == if result.Ok? then 1 else 0
      ensures counts.putError - old(counts.putError) == if result == Err(Interrupted) then 1 else 0
      ensures counts == old(counts).(putOk := counts.putOk, putError := counts.putError)
    {
      var parsed := ParseIfa(ifa, trackingEnabled);
      if parsed.None? {
        return Err(Refused);
      }
      var app := Parse(appId);
      if app.None? {
        return Err(FaultyAppId);
      }
      var entity := Parse(cleartext);
      if entity.None? {
        return Err(FaultyEntityId);
      }
      if fault != Lost {
        table := table[Key(app.value, parsed.value) := entity.value];
      }
      if fault == Written {
        counts := counts.(putOk := counts.putOk + 1);
        result := Ok(());
      } else {
        counts := counts.(putError := counts.putError + 1);
        result := Err(Interrupted);
      }
    }
  }

  /** Writing back what was read changes nothing, whether or not the write gets through. */
  lemma ReadThenWriteIsIdentity(table: Table, key: Option<Key>, readFault: ReadFault, writeFault: WriteFault)
    requires Get(table, key, readFault).Some?
    ensures Put(table, key, Get(table, key, readFault).value, writeFault) == table
  {
    ParsePrint(table[key.value]);
  }

  /** What any key reads as after a write of any text: the written key as the parsed text, in
      its canonical form, if the write took effect; all else as before. */
  lemma ReadAfterWrite(table: Table, key: Option<Key>, cleartext: Str, fault: WriteFault, read: Key)
    ensures var before := Get(table, Some(read), NoFault);
            var after := Get(Put(table, key, cleartext, fault), Some(read), NoFault);
            if key == Some(read) && Parse(cleartext).Some? && fault != Lost
            then after == Some(Print(Parse(cleartext).value)) && (|cleartext| == 36 ==> after == Some(Lower(cleartext)))
            else after == before
  {
    if Parse(cleartext).Some? && |cleartext| == 36 {
      ParseOfCanonicalLength(cleartext, Parse(cleartext).value);
    }
  }

  /** A generated id that was written is what the next read of the key returns. */
  lemma WriteThenRead(table: Table, key: Option<Key>, id: Uuid, writeFault: WriteFault)
    requires key.Some? && writeFault != Lost
    ensures Get(Put(table, key, Print(id), writeFault), key, NoFault) == Some(Print(id))
  {
    ParsePrint(id);
  }
}
