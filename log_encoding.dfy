/** The writer's side of the record stream, used to state what
    `parse_wpilog` recovers from a well-formed log: every record is read in
    order, the tables end as the records declared them, and the entries are
    the data records, one by one, in stream order. */
module LogEncoding {
  import opened Results
  import opened Bytes
  import opened Text
  import opened Values
  import opened ValueEncoding
  import opened Decoder

  /** A record as a writer emits it. `Name` and `TypeDecl` are the metadata
      records with keys `entry` and `type`; `Note` is one with any other key. */
  datatype Record =
    | Start(timestamp: int)
    | Finish(timestamp: int)
    | Name(timestamp: int, id: nat, name: string)
    | TypeDecl(timestamp: int, id: nat, typeName: string)
    | Note(timestamp: int, key: string, payload: string)
    | Sample(timestamp: int, id: nat, t: ValueType, value: Value)

  /** The payload of an `entry` or `type` record: the id, `;`, the text. */
  function Declaration(id: nat, text: string): string {
    Decimal(id) + ";" + text
  }

  /** The record can be written: a 64-bit timestamp, strings the encoder can
      store and read back, a payload of its declared type. */
  predicate Writable(r: Record, enc: Utf8Encoder, utf8: Utf8Decoder) {
    && -TWO_63 <= r.timestamp < TWO_63
    && match r
       case Start(_) => true
       case Finish(_) => true
       case Name(_, id, name) => Encodable("entry", enc, utf8) && Encodable(Declaration(id, name), enc, utf8)
       case TypeDecl(_, id, typeName) => Encodable("type", enc, utf8) && Encodable(Declaration(id, typeName), enc, utf8)
       case Note(_, key, payload) =>
         key != "entry" && key != "type" && Encodable(key, enc, utf8) && Encodable(payload, enc, utf8)
       case Sample(_, id, t, v) => id < 0x1_0000 && Fits(v, t, enc, utf8)
  }

  /** A data record refers to an id whose name and type were declared before. */
  predicate Resolves(tab: Table, r: Record) {
    r.Sample? ==> r.id in tab.names && r.id in tab.types && tab.types[r.id] == TypeName(r.t)
  }

  /** The effect of a record on the tables. */
  function Apply(tab: Table, r: Record): Table {
    match r
    case Start(ts) => tab.(startTime := Some(ts))
    case Name(_, id, name) => tab.(names := tab.names[id := name])
    case TypeDecl(_, id, typeName) => tab.(types := tab.types[id := typeName])
    case _ => tab
  }

  /** The entry a record yields: one for a resolved data record, none otherwise. */
  function Emit(tab: Table, r: Record): seq<Entry> {
    if r.Sample? && r.id in tab.names then [Entry(r.timestamp, tab.names[r.id], r.value)] else []
  }

  /** Every record can be written and resolves against the tables before it. */
  predicate Valid(tab: Table, rs: seq<Record>, enc: Utf8Encoder, utf8: Utf8Decoder)
    decreases |rs|
  {
    |rs| > 0 ==> Writable(rs[0], enc, utf8) && Resolves(tab, rs[0]) && Valid(Apply(tab, rs[0]), rs[1..], enc, utf8)
  }

  /** Every record can be written, whatever the tables. */
  predicate AllWritable(rs: seq<Record>, enc: Utf8Encoder, utf8: Utf8Decoder)
    decreases |rs|
  {
    |rs| > 0 ==> Writable(rs[0], enc, utf8) && AllWritable(rs[1..], enc, utf8)
  }

  function Final(tab: Table, rs: seq<Record>): Table
    decreases |rs|
  {
    if |rs| == 0 then tab else Final(Apply(tab, rs[0]), rs[1..])
  }

  function Emitted(tab: Table, rs: seq<Record>): seq<Entry>
    decreases |rs|
  {
    if |rs| == 0 then [] else Emit(tab, rs[0]) + Emitted(Apply(tab, rs[0]), rs[1..])
  }

  /** The kind byte and the 64-bit timestamp that open every record. */
  function Header(kind: Byte, timestamp: int): (out: seq<Byte>)
    requires -TWO_63 <= timestamp < TWO_63
    ensures |out| == PREFIX_SIZE
  {
    [kind] + ToLittleEndian(Unsigned64(timestamp), 8)
  }

  function EncodeRecord(r: Record, enc: Utf8Encoder, utf8: Utf8Decoder): (out: seq<Byte>)
    requires Writable(r, enc, utf8)
    ensures |out| > PREFIX_SIZE
  {
    match r
    case Start(ts) => Header(CONTROL, ts) + [START]
    case Finish(ts) => Header(CONTROL, ts) + [FINISH]
    case Name(ts, id, name) =>
      Header(METADATA, ts) + EncodeString(enc("entry")) + EncodeString(enc(Declaration(id, name)))
    case TypeDecl(ts, id, typeName) =>
      Header(METADATA, ts) + EncodeString(enc("type")) + EncodeString(enc(Declaration(id, typeName)))
    case Note(ts, key, payload) =>
      Header(METADATA, ts) + EncodeString(enc(key)) + EncodeString(enc(payload))
    case Sample(ts, id, t, v) =>
      Header(DATA, ts) + ToLittleEndian(id, 2) + EncodeValue(v, t, enc, utf8)
  }

  function EncodeRecords(rs: seq<Record>, enc: Utf8Encoder, utf8: Utf8Decoder): seq<Byte>
    requires AllWritable(rs, enc, utf8)
  {
    if |rs| == 0 then [] else EncodeRecord(rs[0], enc, utf8) + EncodeRecords(rs[1..], enc, utf8)
  }

  /** A log file: the magic, then the records. */
  function EncodeLog(rs: seq<Record>, enc: Utf8Encoder, utf8: Utf8Decoder): seq<Byte>
    requires AllWritable(rs, enc, utf8)
  {
    MAGIC + EncodeRecords(rs, enc, utf8)
  }

  lemma {:induction false} ValidWritable(tab: Table, rs: seq<Record>, enc: Utf8Encoder, utf8: Utf8Decoder)
    requires Valid(tab, rs, enc, utf8)
    ensures AllWritable(rs, enc, utf8)
    decreases |rs|
  {
    if |rs| > 0 {
      ValidWritable(Apply(tab, rs[0]), rs[1..], enc, utf8);
    }
  }

  /** The record prefix reads back: the kind byte, the timestamp, then the body. */
  lemma HeaderAt(data: seq<Byte>, o: nat, kind: Byte, timestamp: int, body: seq<Byte>)
    requires -TWO_63 <= timestamp < TWO_63 && At(data, o, Header(kind, timestamp) + body)
    ensures o + PREFIX_SIZE <= |data| && data[o] == kind && I64At(data, o + 1) == timestamp
    ensures At(data, o + PREFIX_SIZE, body)
  {
    var stamp := ToLittleEndian(Unsigned64(timestamp), 8);
    assert Header(kind, timestamp) + body == [kind] + (stamp + body);
    AtSplit(data, o, [kind], stamp + body);
    AtSplit(data, o + 1, stamp, body);
    Pow256Of8();
    LittleEndianAt(data, o + 1, Unsigned64(timestamp), 8);
  }

  lemma ControlEncoded(data: seq<Byte>, o: nat, r: Record, tab: Table, enc: Utf8Encoder, utf8: Utf8Decoder)
    requires (r.Start? || r.Finish?) && Writable(r, enc, utf8) && At(data, o, EncodeRecord(r, enc, utf8))
    ensures o < |data|
    ensures Step(data, o, utf8, tab) == Continue(o + |EncodeRecord(r, enc, utf8)|, Apply(tab, r), Emit(tab, r))
  {
    var subtype := if r.Start? then START else FINISH;
    HeaderAt(data, o, CONTROL, r.timestamp, [subtype]);
    ControlStep(data, o, utf8, tab);
  }

  /** A metadata record with key `key` and payload `payload` reads back and
      updates the tables as `ApplyMetadata` says. */
  lemma MetadataEncoded(data: seq<Byte>, o: nat, timestamp: int, key: string, payload: string, tab: Table,
                        enc: Utf8Encoder, utf8: Utf8Decoder, next: nat, after: Table, emitted: seq<Entry>)
    requires -TWO_63 <= timestamp < TWO_63 && Encodable(key, enc, utf8) && Encodable(payload, enc, utf8)
    requires ApplyMetadata(tab, key, payload) == Success(after) && emitted == []
    requires At(data, o, Header(METADATA, timestamp) + EncodeString(enc(key)) + EncodeString(enc(payload)))
    requires next == o + PREFIX_SIZE + |EncodeString(enc(key))| + |EncodeString(enc(payload))|
    ensures o < |data|
    ensures Step(data, o, utf8, tab) == Continue(next, after, emitted)
  {
    var k := EncodeString(enc(key));
    var p := EncodeString(enc(payload));
    AppendAssociative(Header(METADATA, timestamp), k, p);
    HeaderAt(data, o, METADATA, timestamp, k + p);
    AtSplit(data, o + PREFIX_SIZE, k, p);
    ReadEncodedString(data, o + PREFIX_SIZE, key, enc, utf8);
    ReadEncodedString(data, o + PREFIX_SIZE + |k|, payload, enc, utf8);
    MetadataRead(data, o, utf8, tab, key, o + PREFIX_SIZE + |k|, payload, next, after);
  }

  /** `int(entry_id)` and `split(';', 1)` read a declaration back. */
  lemma ApplyDeclaration(tab: Table, key: string, id: nat, text: string)
    requires key == "entry" || key == "type"
    ensures ApplyMetadata(tab, key, Declaration(id, text))
      == Success(if key == "entry" then tab.(names := tab.names[id := text]) else tab.(types := tab.types[id := text]))
  {
    SplitFirstAfterDigits(id, text);
    ParseIntOfDecimal(id);
  }

  lemma SampleEncoded(data: seq<Byte>, o: nat, r: Record, tab: Table, enc: Utf8Encoder, utf8: Utf8Decoder)
    requires r.Sample? && Writable(r, enc, utf8) && Resolves(tab, r) && At(data, o, EncodeRecord(r, enc, utf8))
    ensures o < |data|
    ensures Step(data, o, utf8, tab) == Continue(o + |EncodeRecord(r, enc, utf8)|, Apply(tab, r), Emit(tab, r))
  {
    var idBytes := ToLittleEndian(r.id, 2);
    var payload := EncodeValue(r.value, r.t, enc, utf8);
    assert EncodeRecord(r, enc, utf8) == Header(DATA, r.timestamp) + (idBytes + payload);
    HeaderAt(data, o, DATA, r.timestamp, idBytes + payload);
    AtSplit(data, o + PREFIX_SIZE, idBytes, payload);
    assert Pow256(2) == 0x1_0000;
    LittleEndianAt(data, o + PREFIX_SIZE, r.id, 2);
    DecodeEncodedValue(data, o + PREFIX_SIZE + 2, r.value, r.t, enc, utf8);
  }

  /** An `entry` or `type` record written as `Declaration(id, text)` is read
      and stores `text` under `id` in the matching table. */
  lemma DeclarationEncoded(data: seq<Byte>, o: nat, timestamp: int, key: string, id: nat, text: string, tab: Table,
                           enc: Utf8Encoder, utf8: Utf8Decoder, next: nat, after: Table, emitted: seq<Entry>)
    requires key == "entry" || key == "type"
    requires -TWO_63 <= timestamp < TWO_63 && Encodable(key, enc, utf8) && Encodable(Declaration(id, text), enc, utf8)
    requires after == if key == "entry" then tab.(names := tab.names[id := text]) else tab.(types := tab.types[id := text])
    requires emitted == []
    requires At(data, o, Header(METADATA, timestamp) + EncodeString(enc(key)) + EncodeString(enc(Declaration(id, text))))
    requires next == o + PREFIX_SIZE + |EncodeString(enc(key))| + |EncodeString(enc(Declaration(id, text)))|
    ensures o < |data|
    ensures Step(data, o, utf8, tab) == Continue(next, after, emitted)
  {
    ApplyDeclaration(tab, key, id, text);
    MetadataEncoded(data, o, timestamp, key, Declaration(id, text), tab, enc, utf8, next, after, emitted);
  }

  lemma NameEncoded(data: seq<Byte>, o: nat, r: Record, tab: Table, enc: Utf8Encoder, utf8: Utf8Decoder)
    requires r.Name? && Writable(r, enc, utf8) && At(data, o, EncodeRecord(r, enc, utf8))
    ensures o < |data|
    ensures Step(data, o, utf8, tab) == Continue(o + |EncodeRecord(r, enc, utf8)|, Apply(tab, r), Emit(tab, r))
  {
    DeclarationEncoded(data, o, r.timestamp, "entry", r.id, r.name, tab, enc, utf8,
                       o + |EncodeRecord(r, enc, utf8)|, Apply(tab, r), Emit(tab, r));
  }

  lemma TypeDeclEncoded(data: seq<Byte>, o: nat, r: Record, tab: Table, enc: Utf8Encoder, utf8: Utf8Decoder)
    requires r.TypeDecl? && Writable(r, enc, utf8) && At(data, o, EncodeRecord(r, enc, utf8))
    ensures o < |data|
    ensures Step(data, o, utf8, tab) == Continue(o + |EncodeRecord(r, enc, utf8)|, Apply(tab, r), Emit(tab, r))
  {
    DeclarationEncoded(data, o, r.timestamp, "type", r.id, r.typeName, tab, enc, utf8,
                       o + |EncodeRecord(r, enc, utf8)|, Apply(tab, r), Emit(tab, r));
  }

  lemma NoteEncoded(data: seq<Byte>, o: nat, r: Record, tab: Table, enc: Utf8Encoder, utf8: Utf8Decoder)
    requires r.Note? && Writable(r, enc, utf8) && At(data, o, EncodeRecord(r, enc, utf8))
    ensures o < |data|
    ensures Step(data, o, utf8, tab) == Continue(o + |EncodeRecord(r, enc, utf8)|, Apply(tab, r), Emit(tab, r))
  {
    MetadataEncoded(data, o, r.timestamp, r.key, r.payload, tab, enc, utf8,
                    o + |EncodeRecord(r, enc, utf8)|, Apply(tab, r), Emit(tab, r));
  }

  /** Each written record is read back as one pass of the loop: the cursor
      moves past exactly its bytes, the tables change as the record says, and
      a data record yields its entry. */
  lemma StepEncoded(data: seq<Byte>, o: nat, r: Record, tab: Table, enc: Utf8Encoder, utf8: Utf8Decoder)
    requires Writable(r, enc, utf8) && Resolves(tab, r) && At(data, o, EncodeRecord(r, enc, utf8))
    ensures o < |data|
    ensures Step(data, o, utf8, tab) == Continue(o + |EncodeRecord(r, enc, utf8)|, Apply(tab, r), Emit(tab, r))
  {
    if r.Start? || r.Finish? {
      ControlEncoded(data, o, r, tab, enc, utf8);
    } else if r.Name? {
      NameEncoded(data, o, r, tab, enc, utf8);
    } else if r.TypeDecl? {
      TypeDeclEncoded(data, o, r, tab, enc, utf8);
    } else if r.Note? {
      NoteEncoded(data, o, r, tab, enc, utf8);
    } else {
      SampleEncoded(data, o, r, tab, enc, utf8);
    }
  }

  /** The loop reads one written record and goes on from its end. */
  lemma RunPastRecord(data: seq<Byte>, o: nat, r: Record, tab: Table, entries: seq<Entry>,
                      enc: Utf8Encoder, utf8: Utf8Decoder, next: nat, after: Table, emitted: seq<Entry>)
    requires Writable(r, enc, utf8) && Resolves(tab, r) && At(data, o, EncodeRecord(r, enc, utf8))
    requires next == o + |EncodeRecord(r, enc, utf8)| && after == Apply(tab, r) && emitted == Emit(tab, r)
    ensures Run(data, o, utf8, tab, entries) == Run(data, next, utf8, after, entries + emitted)
  {
    StepEncoded(data, o, r, tab, enc, utf8);
    RunAfter(data, o, utf8, tab, entries, next, after, emitted);
  }

  /** The records after the first are written right after it. */
  lemma RecordsAt(data: seq<Byte>, o: nat, rs: seq<Record>, enc: Utf8Encoder, utf8: Utf8Decoder)
    requires |rs| > 0 && AllWritable(rs, enc, utf8) && At(data, o, EncodeRecords(rs, enc, utf8))
    ensures At(data, o, EncodeRecord(rs[0], enc, utf8))
    ensures At(data, o + |EncodeRecord(rs[0], enc, utf8)|, EncodeRecords(rs[1..], enc, utf8))
    ensures |EncodeRecords(rs, enc, utf8)| == |EncodeRecord(rs[0], enc, utf8)| + |EncodeRecords(rs[1..], enc, utf8)|
  {
    AtSplit(data, o, EncodeRecord(rs[0], enc, utf8), EncodeRecords(rs[1..], enc, utf8));
  }

  /** The loop reads a sequence of written records to the end of the buffer. */
  lemma {:induction false} RunEncoded(data: seq<Byte>, o: nat, rs: seq<Record>, tab: Table, entries: seq<Entry>,
                                       enc: Utf8Encoder, utf8: Utf8Decoder)
    requires Valid(tab, rs, enc, utf8) && AllWritable(rs, enc, utf8)
    requires At(data, o, EncodeRecords(rs, enc, utf8)) && o + |EncodeRecords(rs, enc, utf8)| == |data|
    ensures Run(data, o, utf8, tab, entries) == Parse(Final(tab, rs), entries + Emitted(tab, rs), None)
    decreases |rs|
  {
    if |rs| > 0 {
      var next := o + |EncodeRecord(rs[0], enc, utf8)|;
      var after, emitted := Apply(tab, rs[0]), Emit(tab, rs[0]);
      RecordsAt(data, o, rs, enc, utf8);
      RunPastRecord(data, o, rs[0], tab, entries, enc, utf8, next, after, emitted);
      assert Valid(after, rs[1..], enc, utf8) && AllWritable(rs[1..], enc, utf8);
      RunEncoded(data, next, rs[1..], after, entries + emitted, enc, utf8);
      AppendAssociative(entries, emitted, Emitted(after, rs[1..]));
    } else {
      assert entries + [] == entries;
    }
  }

  /** A written log starts with the magic and holds the records after it. */
  lemma LogLayout(rs: seq<Record>, enc: Utf8Encoder, utf8: Utf8Decoder)
    requires AllWritable(rs, enc, utf8)
    ensures HasMagic(EncodeLog(rs, enc, utf8))
    ensures At(EncodeLog(rs, enc, utf8), HEADER_SIZE, EncodeRecords(rs, enc, utf8))
    ensures HEADER_SIZE + |EncodeRecords(rs, enc, utf8)| == |EncodeLog(rs, enc, utf8)|
  {
    var body := EncodeRecords(rs, enc, utf8);
    assert (MAGIC + body)[..HEADER_SIZE] == MAGIC;
    AtConcat(MAGIC, body, []);
    assert MAGIC + body + [] == MAGIC + body;
  }

  /** `parse_wpilog` on a written log returns the tables the records declare
      and the entries of the data records, in stream order, and reads to the
      end of the file. */
  lemma DecodeEncodedLog(rs: seq<Record>, enc: Utf8Encoder, utf8: Utf8Decoder)
    requires Valid(EMPTY_TABLE, rs, enc, utf8)
    ensures AllWritable(rs, enc, utf8)
    ensures Decode(EncodeLog(rs, enc, utf8), utf8) == Success(Parse(Final(EMPTY_TABLE, rs), Emitted(EMPTY_TABLE, rs), None))
  {
    ValidWritable(EMPTY_TABLE, rs, enc, utf8);
    var data := EncodeLog(rs, enc, utf8);
    LogLayout(rs, enc, utf8);
    assert Decode(data, utf8) == Success(Run(data, HEADER_SIZE, utf8, EMPTY_TABLE, []));
    RunEncoded(data, HEADER_SIZE, rs, EMPTY_TABLE, [], enc, utf8);
    assert [] + Emitted(EMPTY_TABLE, rs) == Emitted(EMPTY_TABLE, rs);
  }
  /** The data records of a stream, in order. */
  function Samples(rs: seq<Record>): (out: seq<Record>)
    ensures forall k :: 0 <= k < |out| ==> out[k].Sample?
    decreases |rs|
  {
    if |rs| == 0 then [] else (if rs[0].Sample? then [rs[0]] else []) + Samples(rs[1..])
  }

  /** Each data record yields exactly one entry, with its timestamp and value,
      and the entries come in the order of the records. */
  lemma {:induction false} EmittedSamples(tab: Table, rs: seq<Record>, enc: Utf8Encoder, utf8: Utf8Decoder)
    requires Valid(tab, rs, enc, utf8)
    ensures |Emitted(tab, rs)| == |Samples(rs)|
    ensures forall k :: 0 <= k < |Samples(rs)| ==>
      Emitted(tab, rs)[k].timestamp == Samples(rs)[k].timestamp && Emitted(tab, rs)[k].value == Samples(rs)[k].value
    decreases |rs|
  {
    if |rs| > 0 {
      var after := Apply(tab, rs[0]);
      EmittedSamples(after, rs[1..], enc, utf8);
      var head := Emit(tab, rs[0]);
      var first := if rs[0].Sample? then [rs[0]] else [];
      assert |head| == |first|;
      assert Emitted(tab, rs) == head + Emitted(after, rs[1..]);
      assert Samples(rs) == first + Samples(rs[1..]);
    }
  }

  /** Records other than Start leave `start_time` as it was. */
  lemma {:induction false} NoStartKeeps(tab: Table, rs: seq<Record>)
    requires forall i :: 0 <= i < |rs| ==> !rs[i].Start?
    ensures Final(tab, rs).startTime == tab.startTime
    decreases |rs|
  {
    if |rs| > 0 {
      assert !rs[0].Start?;
      assert forall j :: 0 <= j < |rs[1..]| ==> !rs[1..][j].Start? by {
        forall j | 0 <= j < |rs[1..]| ensures !rs[1..][j].Start? {
          assert rs[1..][j] == rs[j + 1];
        }
      }
      NoStartKeeps(Apply(tab, rs[0]), rs[1..]);
    }
  }

  /** `start_time` is overwritten by every Start record, so after a stream it
      holds the timestamp of the last Start. */
  lemma {:induction false} LastStartWins(tab: Table, rs: seq<Record>, i: nat)
    requires i < |rs| && rs[i].Start? && forall j :: i < j < |rs| ==> !rs[j].Start?
    ensures Final(tab, rs).startTime == Some(rs[i].timestamp)
    decreases |rs|
  {
    // the records after the i-th, counted in the tail
    assert forall j :: i <= j < |rs[1..]| ==> !rs[1..][j].Start? by {
      forall j | i <= j < |rs[1..]| ensures !rs[1..][j].Start? {
        assert rs[1..][j] == rs[j + 1];
      }
    }
    if i == 0 {
      NoStartKeeps(Apply(tab, rs[0]), rs[1..]);
    } else {
      assert rs[1..][i - 1] == rs[i];
      LastStartWins(Apply(tab, rs[0]), rs[1..], i - 1);
    }
  }
}
