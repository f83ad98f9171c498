/** `parse_wpilog`: the 6-byte magic, then a loop over records. Each record
    is a kind byte and a little-endian 64-bit timestamp in microseconds,
    followed by a body that depends on the kind. Control records mark
    Start/Finish, metadata records fill the id-to-name and id-to-type tables,
    and data records become entries. */
module Decoder {
  import opened Results
  import opened Bytes
  import opened Text
  import opened Values

  /** The magic `b'WPILOG'` that opens every log. */
  const MAGIC: seq<Byte> := [0x57, 0x50, 0x49, 0x4C, 0x4F, 0x47]
  const HEADER_SIZE: nat := 6

  /** Record kinds and control subtypes. */
  const CONTROL: Byte := 0
  const METADATA: Byte := 1
  const DATA: Byte := 2
  const START: Byte := 0
  const FINISH: Byte := 1

  /** Bytes of a record before its body: the kind and the timestamp. */
  const PREFIX_SIZE: nat := 9

  /** A decoded sample: when, which channel, what value. The timestamp is the
      wire value in microseconds. */
  datatype Entry = Entry(timestamp: int, name: string, value: Value)

  /** What a `WPILogMetadata` holds at some point of the loop. */
  datatype Table = Table(names: map<int, string>, types: map<int, string>, startTime: Option<int>)

  const EMPTY_TABLE: Table := Table(map[], map[], None)

  /** Why the record loop stopped before the end of the buffer. */
  datatype Halt =
    | UnknownId(id: nat)           // a data record for an id missing from either table
    | UnknownKind(kind: Byte)      // a kind byte other than 0, 1, 2
    | Raised(error: DecodeError)   // an exception caught by the loop

  /** What one record does: either the loop goes on at `next` with a new
      table and the entries the record emits, or it stops. */
  datatype Outcome = Continue(next: nat, table: Table, emitted: seq<Entry>) | Stop(why: Halt)

  /** The result of the loop: the metadata and entries it returns, and why it
      ended (`None` when it ran to the end of the buffer). */
  datatype Parse = Parse(table: Table, entries: seq<Entry>, halt: Option<Halt>)

  datatype LogError = InvalidHeader

  /** The body of a control record, whose subtype byte sits at `o`. */
  function ControlRecord(data: seq<Byte>, o: nat, timestamp: int, t: Table): (r: Outcome)
    // read exactly when the subtype byte is in the buffer; it emits nothing,
    // and only a Start record changes the table, and only its start time
    ensures r.Continue? <==> o < |data|
    ensures r.Stop? ==> r.why == Raised(Truncated)
    ensures r.Continue? ==>
      && r.next == o + 1 && r.emitted == []
      && r.table.names == t.names && r.table.types == t.types
      && (r.table != t ==> data[o] == START && r.table.startTime == Some(timestamp))
  {
    if o >= |data| then Stop(Raised(Truncated))
    else if data[o] == START then Continue(o + 1, t.(startTime := Some(timestamp)), [])
    else Continue(o + 1, t, [])
  }

  /** The table update of a metadata record with key `key` and text `payload`:
      keys `entry` and `type` map the integer before the first `;` to the text
      after it; any other key changes nothing. */
  function ApplyMetadata(t: Table, key: string, payload: string): (r: Result<Table, DecodeError>)
    ensures key != "entry" && key != "type" ==> r == Success(t)
    ensures (key == "entry" || key == "type") && ';' !in payload ==> r == Failure(Malformed(payload))
    ensures r.Success? && (key == "entry" || key == "type") ==>
      exists idText, text, id ::
        && payload == idText + [';'] + text && ';' !in idText && ParseInt(idText) == Some(id)
        && r.value == (if key == "entry" then t.(names := t.names[id := text]) else t.(types := t.types[id := text]))
  {
    if key == "entry" || key == "type" then
      match SplitFirst(payload, ';')
      case None => Failure(Malformed(payload))
      case Some((idText, text)) =>
        match ParseInt(idText)
        case None => Failure(Malformed(payload))
        case Some(id) =>
          if key == "entry" then Success(t.(names := t.names[id := text]))
          else Success(t.(types := t.types[id := text]))
    else Success(t)
  }

  /** An `entry` or `type` payload is cut at its first `;`; the update happens
      exactly when `int()` accepts the text before it, and stores the text
      after it under that id. */
  lemma ApplyMetadataDeclares(t: Table, key: string, idText: string, text: string)
    requires key == "entry" || key == "type"
    requires ';' !in idText
    ensures ParseInt(idText).None? ==> ApplyMetadata(t, key, idText + [';'] + text) == Failure(Malformed(idText + [';'] + text))
    ensures ParseInt(idText).Some? ==>
      var id := ParseInt(idText).value;
      ApplyMetadata(t, key, idText + [';'] + text)
        == Success(if key == "entry" then t.(names := t.names[id := text]) else t.(types := t.types[id := text]))
  {
    SplitAtFirst(idText, ';', text);
  }

  /** The body of a metadata record: two strings, a key and a payload. */
  function MetadataRecord(data: seq<Byte>, o: nat, utf8: Utf8Decoder, t: Table): (r: Outcome)
    // it emits nothing, keeps the start time, moves past two length
    // prefixes at least, and fails only by raising
    ensures r.Continue? ==> r.emitted == [] && r.table.startTime == t.startTime && o + 4 <= r.next
    ensures r.Stop? ==> r.why.Raised?
  {
    match ReadString(data, o, utf8)
    case Failure(err) => Stop(Raised(err))
    case Success((key, p)) =>
      match ReadString(data, p, utf8)
      case Failure(err) => Stop(Raised(err))
      case Success((payload, q)) =>
        match ApplyMetadata(t, key, payload)
        case Failure(err) => Stop(Raised(err))
        case Success(t') => Continue(q, t', [])
  }

  /** The body of a data record: a u16 id, then a payload of the id's type. */
  function DataRecord(data: seq<Byte>, o: nat, timestamp: int, utf8: Utf8Decoder, t: Table): (r: Outcome)
    ensures o + 2 > |data| ==> r == Stop(Raised(Truncated))
    ensures o + 2 <= |data| && !(U16At(data, o) in t.names && U16At(data, o) in t.types) ==> r == Stop(UnknownId(U16At(data, o)))
    // a record that is read keeps the table and emits one entry stamped with
    // the record's time and named by its id; at least one payload byte lies
    // in the buffer
    ensures r.Continue? ==>
      && o + 3 <= |data| && o + 3 <= r.next && U16At(data, o) in t.names
      && r.table == t && |r.emitted| == 1
      && r.emitted[0].timestamp == timestamp && r.emitted[0].name == t.names[U16At(data, o)]
  {
    if o + 2 > |data| then Stop(Raised(Truncated))
    else
      var id := U16At(data, o);
      if id in t.names && id in t.types then
        match DecodeValue(data, o + 2, t.types[id], utf8)
        case Failure(err) => Stop(Raised(err))
        case Success((v, q)) => Continue(q, t, [Entry(timestamp, t.names[id], v)])
      else Stop(UnknownId(id))
  }

  /** One pass of the loop body on the record at `o`. */
  function Step(data: seq<Byte>, o: nat, utf8: Utf8Decoder, t: Table): (r: Outcome)
    requires o < |data|
    // a record that is read moves the cursor past its kind and timestamp and
    // emits at most one entry; only data records emit
    ensures r.Continue? ==> o + PREFIX_SIZE < r.next && |r.emitted| <= 1
    ensures r.Continue? && |r.emitted| == 1 ==>
      data[o] == DATA && o + PREFIX_SIZE + 3 <= |data| && o + PREFIX_SIZE + 3 <= r.next
    ensures o + PREFIX_SIZE > |data| ==> r == Stop(Raised(Truncated))
    ensures o + PREFIX_SIZE <= |data| && data[o] > DATA ==> r == Stop(UnknownKind(data[o]))
  {
    var kind := data[o];
    if o + PREFIX_SIZE > |data| then Stop(Raised(Truncated))
    else
      var timestamp := I64At(data, o + 1);
      if kind == CONTROL then ControlRecord(data, o + PREFIX_SIZE, timestamp, t)
      else if kind == METADATA then MetadataRecord(data, o + PREFIX_SIZE, utf8, t)
      else if kind == DATA then DataRecord(data, o + PREFIX_SIZE, timestamp, utf8, t)
      else Stop(UnknownKind(kind))
  }

  /** A control record has one subtype byte; Start sets the start time to
      the record's timestamp, and any other subtype changes nothing. */
  lemma ControlStep(data: seq<Byte>, o: nat, utf8: Utf8Decoder, t: Table)
    requires o + PREFIX_SIZE < |data| && data[o] == CONTROL
    ensures Step(data, o, utf8, t) == Continue(o + PREFIX_SIZE + 1,
      if data[o + PREFIX_SIZE] == START then t.(startTime := Some(I64At(data, o + 1))) else t,
      [])
  {
  }

  /** A metadata record that is read holds two strings, a key and a payload,
      and changes the tables as `ApplyMetadata` says; it emits nothing. */
  lemma MetadataStep(data: seq<Byte>, o: nat, utf8: Utf8Decoder, t: Table)
    requires o < |data| && data[o] == METADATA && Step(data, o, utf8, t).Continue?
    ensures var r := Step(data, o, utf8, t);
      && r.emitted == []
      && exists key, p, payload ::
        && ReadString(data, o + PREFIX_SIZE, utf8) == Success((key, p))
        && ReadString(data, p, utf8) == Success((payload, r.next))
        && ApplyMetadata(t, key, payload) == Success(r.table)
  {
  }

  /** Conversely, a metadata record whose two strings read and whose payload
      `ApplyMetadata` accepts is read: the cursor moves past the second string. */
  lemma MetadataRead(data: seq<Byte>, o: nat, utf8: Utf8Decoder, t: Table,
                     key: string, p: nat, payload: string, q: nat, t': Table)
    requires o + PREFIX_SIZE <= |data| && data[o] == METADATA
    requires ReadString(data, o + PREFIX_SIZE, utf8) == Success((key, p))
    requires ReadString(data, p, utf8) == Success((payload, q))
    requires ApplyMetadata(t, key, payload) == Success(t')
    ensures Step(data, o, utf8, t) == Continue(q, t', [])
  {
  }

  /** A data record that is read names an id known to both tables, holds a
      payload of the id's type, and emits one entry; the tables stay as they are. */
  lemma DataStep(data: seq<Byte>, o: nat, utf8: Utf8Decoder, t: Table)
    requires o < |data| && data[o] == DATA && Step(data, o, utf8, t).Continue?
    ensures var r := Step(data, o, utf8, t);
      && o + PREFIX_SIZE + 2 <= |data|
      && var id := U16At(data, o + PREFIX_SIZE);
      && r.table == t && id in t.names && id in t.types
      && |r.emitted| == 1
      && r.emitted[0].timestamp == I64At(data, o + 1) && r.emitted[0].name == t.names[id]
      && DecodeValue(data, o + PREFIX_SIZE + 2, t.types[id], utf8) == Success((r.emitted[0].value, r.next))
  {
  }

  /** A data record whose id is missing from either table stops the loop. */
  lemma UnknownIdStep(data: seq<Byte>, o: nat, utf8: Utf8Decoder, t: Table)
    requires o + PREFIX_SIZE + 2 <= |data| && data[o] == DATA
    requires !(U16At(data, o + PREFIX_SIZE) in t.names && U16At(data, o + PREFIX_SIZE) in t.types)
    ensures Step(data, o, utf8, t) == Stop(UnknownId(U16At(data, o + PREFIX_SIZE)))
  {
  }

  /** The loop from offset `o` on, with table `t` and the entries read so far. */
  function Run(data: seq<Byte>, o: nat, utf8: Utf8Decoder, t: Table, entries: seq<Entry>): (r: Parse)
    // every entry the loop appends uses up at least the 12 bytes of a kind,
    // a timestamp, an id and one payload byte
    ensures |entries| <= |r.entries|
    ensures 12 * (|r.entries| - |entries|) <= if o < |data| then |data| - o else 0
    decreases |data| - o
  {
    if o >= |data| then Parse(t, entries, None)
    else
      match Step(data, o, utf8, t)
      case Stop(why) => Parse(t, entries, Some(why))
      case Continue(next, t', emitted) => Run(data, next, utf8, t', entries + emitted)
  }

  predicate HasMagic(data: seq<Byte>) {
    |data| >= HEADER_SIZE && data[..HEADER_SIZE] == MAGIC
  }

  /** `parse_wpilog` on the bytes of a file. */
  function Decode(data: seq<Byte>, utf8: Utf8Decoder): (r: Result<Parse, LogError>)
    ensures r.Failure? <==> !HasMagic(data)
  {
    if !HasMagic(data) then Failure(InvalidHeader)
    else Success(Run(data, HEADER_SIZE, utf8, EMPTY_TABLE, []))
  }

  /** The `metadata` object of `parse_wpilog`, updated in place by the loop. */
  class WpiLogMetadata {
    var entryNames: map<int, string>
    var entryTypes: map<int, string>
    var startTime: Option<int>

    constructor ()
      ensures Snapshot() == EMPTY_TABLE
    {
      entryNames := map[];
      entryTypes := map[];
      startTime := None;
    }

    /** The three fields as one value. */
    function Snapshot(): Table
      reads this
    {
      Table(entryNames, entryTypes, startTime)
    }

    method SetStart(timestamp: int)
      modifies this
      ensures Snapshot() == old(Snapshot()).(startTime := Some(timestamp))
    {
      startTime := Some(timestamp);
    }

    method SetName(id: int, name: string)
      modifies this
      ensures Snapshot() == old(Snapshot()).(names := old(entryNames)[id := name])
    {
      entryNames := entryNames[id := name];
    }

    method SetType(id: int, typeName: string)
      modifies this
      ensures Snapshot() == old(Snapshot()).(types := old(entryTypes)[id := typeName])
    {
      entryTypes := entryTypes[id := typeName];
    }
  }

  lemma RunStop(data: seq<Byte>, o: nat, utf8: Utf8Decoder, t: Table, entries: seq<Entry>)
    requires o < |data| && Step(data, o, utf8, t).Stop?
    ensures Run(data, o, utf8, t, entries) == Parse(t, entries, Some(Step(data, o, utf8, t).why))
  {
  }

  lemma RunContinue(data: seq<Byte>, o: nat, utf8: Utf8Decoder, t: Table, entries: seq<Entry>)
    requires o < |data| && Step(data, o, utf8, t).Continue?
    ensures var s := Step(data, o, utf8, t);
      Run(data, o, utf8, t, entries) == Run(data, s.next, utf8, s.table, entries + s.emitted)
  {
  }

  /** The loop after a record that was read goes on from that record's end. */
  lemma RunAfter(data: seq<Byte>, o: nat, utf8: Utf8Decoder, t: Table, entries: seq<Entry>,
                 next: nat, t': Table, emitted: seq<Entry>)
    requires o < |data| && Step(data, o, utf8, t) == Continue(next, t', emitted)
    ensures Run(data, o, utf8, t, entries) == Run(data, next, utf8, t', entries + emitted)
  {
  }

  /** Append-only: the loop only ever adds entries after those it started with. */
  lemma {:induction false} RunExtends(data: seq<Byte>, o: nat, utf8: Utf8Decoder, t: Table, entries: seq<Entry>)
    ensures var r := Run(data, o, utf8, t, entries);
      |entries| <= |r.entries| && r.entries[..|entries|] == entries
    decreases |data| - o
  {
    if o < |data| && Step(data, o, utf8, t).Continue? {
      var s := Step(data, o, utf8, t);
      RunExtends(data, s.next, utf8, s.table, entries + s.emitted);
      assert (entries + s.emitted)[..|entries|] == entries;
    }
  }

  /** The entries read from `o` on do not depend on the entries read before:
      the result is those followed by what a fresh loop from `o` returns. */
  lemma {:induction false} RunFrom(data: seq<Byte>, o: nat, utf8: Utf8Decoder, t: Table, entries: seq<Entry>)
    ensures var r := Run(data, o, utf8, t, entries);
      var alone := Run(data, o, utf8, t, []);
      r == Parse(alone.table, entries + alone.entries, alone.halt)
    decreases |data| - o
  {
    if o < |data| && Step(data, o, utf8, t).Continue? {
      var s := Step(data, o, utf8, t);
      var rest := Run(data, s.next, utf8, s.table, []);
      RunContinue(data, o, utf8, t, entries);
      RunContinue(data, o, utf8, t, []);
      RunFrom(data, s.next, utf8, s.table, entries + s.emitted);
      RunFrom(data, s.next, utf8, s.table, s.emitted);
      assert [] + s.emitted == s.emitted;
      AppendAssociative(entries, s.emitted, rest.entries);
    }
  }

  /** A `string` data record whose declared text runs past the end of the
      buffer is still read: what is left of the buffer becomes the value, the
      entry is appended, and the loop ends there without a halt. */
  lemma CutStringRecord(data: seq<Byte>, o: nat, utf8: Utf8Decoder, t: Table, entries: seq<Entry>, s: string)
    requires o + PREFIX_SIZE + 4 <= |data| && data[o] == DATA
    requires U16At(data, o + PREFIX_SIZE) in t.names && U16At(data, o + PREFIX_SIZE) in t.types
    requires t.types[U16At(data, o + PREFIX_SIZE)] == "string"
    requires |data| < o + PREFIX_SIZE + 4 + U16At(data, o + PREFIX_SIZE + 2)
    requires utf8(data[o + PREFIX_SIZE + 4..]) == Some(s)
    ensures Run(data, o, utf8, t, entries)
      == Parse(t, entries + [Entry(I64At(data, o + 1), t.names[U16At(data, o + PREFIX_SIZE)], Single(Str(s)))], None)
  {
    var id := U16At(data, o + PREFIX_SIZE);
    var p := o + PREFIX_SIZE + 2;
    var q := p + 2 + U16At(data, p);
    ReadStringCutShort(data, p, utf8, s);
    assert DecodeValue(data, p, t.types[id], utf8) == Success((Single(Str(s)), q));
    var emitted := [Entry(I64At(data, o + 1), t.names[id], Single(Str(s)))];
    assert Step(data, o, utf8, t) == Continue(q, t, emitted);
    RunAfter(data, o, utf8, t, entries, q, t, emitted);
  }

  /** The control branch of the loop body, from the subtype byte at `offset`. */
  method ReadControl(data: seq<Byte>, offset: nat, timestamp: int, metadata: WpiLogMetadata) returns (next: nat, ok: bool)
    modifies metadata
    ensures var r := ControlRecord(data, offset, timestamp, old(metadata.Snapshot()));
      if ok then r == Continue(next, metadata.Snapshot(), [])
      else r.Stop? && metadata.Snapshot() == old(metadata.Snapshot())
  {
    if offset >= |data| {
      return offset, false;
    }
    var controlType := data[offset];
    next := offset + 1;
    if controlType == START {
      metadata.SetStart(timestamp);
    }
    ok := true;
  }

  /** The metadata branch of the loop body, from the key string at `offset`. */
  method ReadMetadata(data: seq<Byte>, offset: nat, utf8: Utf8Decoder, metadata: WpiLogMetadata) returns (next: nat, ok: bool)
    modifies metadata
    ensures var r := MetadataRecord(data, offset, utf8, old(metadata.Snapshot()));
      if ok then r == Continue(next, metadata.Snapshot(), [])
      else r.Stop? && metadata.Snapshot() == old(metadata.Snapshot())
  {
    var key := ReadString(data, offset, utf8);
    if key.Failure? {
      return offset, false;
    }
    next := key.value.1;
    var payload := ReadString(data, next, utf8);
    if payload.Failure? {
      return offset, false;
    }
    next := payload.value.1;
    ok := true;
    if key.value.0 == "entry" {
      var parts := SplitFirst(payload.value.0, ';');
      if parts.None? {
        return offset, false;
      }
      var id := ParseInt(parts.value.0);
      if id.None? {
        return offset, false;
      }
      metadata.SetName(id.value, parts.value.1);
    } else if key.value.0 == "type" {
      var parts := SplitFirst(payload.value.0, ';');
      if parts.None? {
        return offset, false;
      }
      var id := ParseInt(parts.value.0);
      if id.None? {
        return offset, false;
      }
      metadata.SetType(id.value, parts.value.1);
    }
  }

  /** The data branch of the loop body, from the id at `offset`. */
  method ReadData(data: seq<Byte>, offset: nat, timestamp: int, utf8: Utf8Decoder, metadata: WpiLogMetadata)
    returns (next: nat, emitted: seq<Entry>, ok: bool)
    ensures var r := DataRecord(data, offset, timestamp, utf8, metadata.Snapshot());
      if ok then r == Continue(next, metadata.Snapshot(), emitted) else r.Stop?
  {
    if offset + 2 > |data| {
      return offset, [], false;
    }
    var id := U16At(data, offset);
    next := offset + 2;
    if id in metadata.entryNames && id in metadata.entryTypes {
      var name := metadata.entryNames[id];
      var typeName := metadata.entryTypes[id];
      var value := ParseValue(data, next, typeName, utf8);
      if value.Failure? {
        return offset, [], false;
      }
      next := value.value.1;
      emitted := [Entry(timestamp, name, value.value.0)];
      ok := true;
    } else {
      return offset, [], false;
    }
  }

  /** `parse_wpilog`: the header check, then the record loop, which leaves
      through `break` on an unresolved id, an unknown kind or any exception. */
  method ParseWpilog(data: seq<Byte>, utf8: Utf8Decoder) returns (r: Result<(WpiLogMetadata, seq<Entry>), LogError>)
    ensures r.Failure? <==> Decode(data, utf8).Failure?
    ensures r.Success? ==> fresh(r.value.0)
    ensures r.Success? ==>
      && Decode(data, utf8).Success?
      && r.value.0.Snapshot() == Decode(data, utf8).value.table
      && r.value.1 == Decode(data, utf8).value.entries
  {
    var metadata := new WpiLogMetadata();
    var entries: seq<Entry> := [];
    var offset: nat := 0;
    if |data| < offset + HEADER_SIZE || data[offset..offset + HEADER_SIZE] != MAGIC {
      return Failure(InvalidHeader);
    }
    offset := offset + HEADER_SIZE;
    ghost var goal := Run(data, offset, utf8, metadata.Snapshot(), entries);

    while offset < |data|
      invariant Run(data, offset, utf8, metadata.Snapshot(), entries) == goal
      decreases |data| - offset
    {
      ghost var start := offset;
      ghost var before := metadata.Snapshot();
      var kind := data[offset];
      offset := offset + 1;
      if offset + 8 > |data| {
        RunStop(data, start, utf8, before, entries);
        break;
      }
      var timestamp := I64At(data, offset);
      offset := offset + 8;
      var next: nat, emitted: seq<Entry>, ok: bool := offset, [], false;
      if kind == CONTROL {
        next, ok := ReadControl(data, offset, timestamp, metadata);
      } else if kind == METADATA {
        next, ok := ReadMetadata(data, offset, utf8, metadata);
      } else if kind == DATA {
        next, emitted, ok := ReadData(data, offset, timestamp, utf8, metadata);
      }
      if !ok {
        RunStop(data, start, utf8, before, entries);
        break;
      }
      RunContinue(data, start, utf8, before, entries);
      offset := next;
      entries := entries + emitted;
    }
    return Success((metadata, entries));
  }
}
