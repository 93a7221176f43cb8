/** The byte layout of a clmn file: where each section starts and how readers find it. */
module Layout {
  import opened Words
  import opened Values
  import opened PackedWords
  import opened Tables

  // The bytes of a section lie at a position of the file.
  predicate At(file: Bytes, p: nat, bs: Bytes) {
    p + |bs| <= |file| && file[p..p + |bs|] == bs
  }

  lemma AtSplit(file: Bytes, p: nat, a: Bytes, b: Bytes)
    ensures At(file, p, a + b) <==> At(file, p, a) && At(file, p + |a|, b)
  {
    if At(file, p, a + b) {
      assert file[p..p + |a + b|][..|a|] == file[p..p + |a|];
      assert file[p..p + |a + b|][|a|..] == file[p + |a|..p + |a| + |b|];
    }
    if At(file, p, a) && At(file, p + |a|, b) {
      assert file[p..p + |a + b|] == file[p..p + |a|] + file[p + |a|..p + |a| + |b|];
    }
  }

  // ------------------------------------------------------------------ sections

  // A column's data or a name: its length, then its bytes.
  function Frame(bs: Bytes): Bytes {
    ToBytes(|bs|, SIZE_BYTES) + bs
  }

  function FramesBytes(parts: seq<Bytes>): Bytes {
    if |parts| == 0 then [] else FramesBytes(parts[..|parts| - 1]) + Frame(parts[|parts| - 1])
  }

  // Where part i starts, relative to the batch; for i == |parts|, where the metadata starts.
  function PartOffset(parts: seq<Bytes>, i: nat): nat
    requires i <= |parts|
  {
    SIZE_BYTES + |FramesBytes(parts[..i])|
  }

  function Offsets(parts: seq<Bytes>): (offsets: seq<nat>)
    ensures |offsets| == |parts|
  {
    seq(|parts|, i requires 0 <= i < |parts| => PartOffset(parts, i))
  }

  // A batch of encoded columns.
  datatype Encoded = Encoded(rows: nat, parts: seq<Bytes>)

  function BatchBytes(e: Encoded): Bytes {
    ToBytes(PartOffset(e.parts, |e.parts|), SIZE_BYTES) + FramesBytes(e.parts)
    + ToBytes(e.rows, SIZE_BYTES) + RawWords(Offsets(e.parts), SIZE_BYTES)
  }

  function BatchesBytes(batches: seq<Encoded>): Bytes {
    if |batches| == 0 then [] else BatchesBytes(batches[..|batches| - 1]) + BatchBytes(batches[|batches| - 1])
  }

  function BatchStart(batches: seq<Encoded>, i: nat): nat
    requires i <= |batches|
  {
    |BatchesBytes(batches[..i])|
  }

  // The numeric value of the enumeration.
  function TypeCode(t: Type): Byte {
    match t
    case Int16 => 0
    case Int32 => 1
    case Int64 => 2
    case Int128 => 3
    case Float => 4
    case Double => 5
    case Date => 6
    case Timestamp => 7
    case Char => 8
    case String => 9
  }

  function TypeOfCode(code: Byte): (t: Type)
    requires code < 10
    ensures TypeCode(t) == code
  {
    match code
    case 0 => Int16
    case 1 => Int32
    case 2 => Int64
    case 3 => Int128
    case 4 => Float
    case 5 => Double
    case 6 => Date
    case 7 => Timestamp
    case 8 => Char
    case 9 => String
  }

  // The codes number the types in the order of their declaration.
  lemma TypeCodes(t: Type)
    ensures [Int16, Int32, Int64, Int128, Float, Double, Date, Timestamp, Char, String][TypeCode(t)] == t
  {
  }

  function SchemaEntry(t: Type, name: Bytes): Bytes {
    [TypeCode(t)] + Frame(name)
  }

  // The entries of the first n columns.
  function SchemaBytes(schema: Schema, n: nat): Bytes
    requires schema.Valid() && n <= |schema.names|
  {
    if n == 0 then [] else SchemaBytes(schema, n - 1) + SchemaEntry(schema.types[n - 1], schema.names[n - 1])
  }

  function WholeSchema(schema: Schema): Bytes
    requires schema.Valid()
  {
    SchemaBytes(schema, |schema.names|)
  }

  const FOOTER_BYTES: nat := 40

  datatype Footer = Footer(rows: nat, columns: nat, batches: nat, flags: nat, schemaOffset: nat)

  function FooterBytes(f: Footer): (bs: Bytes)
    ensures |bs| == FOOTER_BYTES
  {
    ToBytes(f.rows, SIZE_BYTES) + ToBytes(f.columns, SIZE_BYTES) + ToBytes(f.batches, SIZE_BYTES)
    + ToBytes(f.flags, SIZE_BYTES) + ToBytes(f.schemaOffset, SIZE_BYTES)
  }

  function TotalRows(batches: seq<Encoded>): nat {
    if |batches| == 0 then 0 else TotalRows(batches[..|batches| - 1]) + batches[|batches| - 1].rows
  }

  function FooterOf(batches: seq<Encoded>, schema: Schema, flags: nat): Footer
    requires schema.Valid()
  {
    Footer(TotalRows(batches), |schema.names|, |batches|, flags, |WholeSchema(schema)| + FOOTER_BYTES)
  }

  function FileBytes(batches: seq<Encoded>, schema: Schema, flags: nat): Bytes
    requires schema.Valid()
  {
    BatchesBytes(batches) + WholeSchema(schema) + FooterBytes(FooterOf(batches, schema, flags))
  }

  // ------------------------------------------------------ what the offsets point at

  lemma {:induction false} FramesPart(file: Bytes, p: nat, parts: seq<Bytes>, i: nat)
    requires i < |parts| && At(file, p, FramesBytes(parts))
    ensures At(file, p + |FramesBytes(parts[..i])|, Frame(parts[i]))
  {
    var n := |parts| - 1;
    AtSplit(file, p, FramesBytes(parts[..n]), Frame(parts[n]));
    if i < n {
      FramesPart(file, p, parts[..n], i);
      assert parts[..n][..i] == parts[..i];
    }
  }

  lemma {:induction false} RawWordAt(file: Bytes, p: nat, us: seq<nat>, i: nat)
    requires i < |us| && At(file, p, RawWords(us, SIZE_BYTES))
    ensures At(file, p + SIZE_BYTES * i, ToBytes(us[i], SIZE_BYTES))
    decreases i
  {
    AtSplit(file, p, ToBytes(us[0], SIZE_BYTES), RawWords(us[1..], SIZE_BYTES));
    if i > 0 {
      RawWordAt(file, p + SIZE_BYTES, us[1..], i - 1);
    }
  }

  // The size of a batch, and the four sections its bytes consist of.
  lemma BatchSections(file: Bytes, p: nat, e: Encoded)
    requires At(file, p, BatchBytes(e))
    ensures var meta := PartOffset(e.parts, |e.parts|);
            && At(file, p, ToBytes(meta, SIZE_BYTES))
            && At(file, p + SIZE_BYTES, FramesBytes(e.parts))
            && At(file, p + meta, ToBytes(e.rows, SIZE_BYTES))
            && At(file, p + meta + SIZE_BYTES, RawWords(Offsets(e.parts), SIZE_BYTES))
            && |BatchBytes(e)| == meta + SIZE_BYTES + SIZE_BYTES * |e.parts|
  {
    hide FramesBytes, RawWords, ToBytes;
    var parts := e.parts;
    assert parts[..|parts|] == parts;
    var header := ToBytes(PartOffset(parts, |parts|), SIZE_BYTES);
    var rows, offsets := ToBytes(e.rows, SIZE_BYTES), RawWords(Offsets(parts), SIZE_BYTES);
    AtSplit(file, p, header + FramesBytes(parts) + rows, offsets);
    AtSplit(file, p, header + FramesBytes(parts), rows);
    AtSplit(file, p, header, FramesBytes(parts));
    RawWordsSize(Offsets(parts), SIZE_BYTES);
  }

  // The metadata offset leads to the row count, the stored column offset to the column.
  lemma ColumnFound(file: Bytes, p: nat, e: Encoded, i: nat)
    requires At(file, p, BatchBytes(e)) && i < |e.parts|
    ensures At(file, p + PartOffset(e.parts, |e.parts|) + SIZE_BYTES + SIZE_BYTES * i,
               ToBytes(PartOffset(e.parts, i), SIZE_BYTES))
    ensures At(file, p + PartOffset(e.parts, i), Frame(e.parts[i]))
  {
    hide BatchBytes, RawWords, FramesBytes, ToBytes, Frame;
    BatchSections(file, p, e);
    RawWordAt(file, p + PartOffset(e.parts, |e.parts|) + SIZE_BYTES, Offsets(e.parts), i);
    FramesPart(file, p + SIZE_BYTES, e.parts, i);
  }

  lemma {:induction false} BatchFoundIn(file: Bytes, batches: seq<Encoded>, i: nat)
    requires i < |batches| && At(file, 0, BatchesBytes(batches))
    ensures At(file, BatchStart(batches, i), BatchBytes(batches[i]))
    ensures BatchStart(batches, i + 1) == BatchStart(batches, i) + |BatchBytes(batches[i])|
  {
    hide BatchBytes;
    var n := |batches| - 1;
    AtSplit(file, 0, BatchesBytes(batches[..n]), BatchBytes(batches[n]));
    if i < n {
      BatchFoundIn(file, batches[..n], i);
      assert batches[..n][..i] == batches[..i] && batches[..n][..i + 1] == batches[..i + 1];
    } else {
      assert batches[..i + 1] == batches;
    }
  }

  // The footer is found from the end, and the schema through the footer.
  lemma FileSections(batches: seq<Encoded>, schema: Schema, flags: nat)
    requires schema.Valid()
    ensures var file, footer := FileBytes(batches, schema, flags), FooterOf(batches, schema, flags);
            && At(file, 0, BatchesBytes(batches))
            && At(file, |file| - footer.schemaOffset, WholeSchema(schema))
            && At(file, |file| - FOOTER_BYTES, FooterBytes(footer))
  {
    var data, names := BatchesBytes(batches), WholeSchema(schema);
    var footer := FooterBytes(FooterOf(batches, schema, flags));
    var file := data + names + footer;
    assert At(file, 0, file);
    AtSplit(file, 0, data + names, footer);
    AtSplit(file, 0, data, names);
  }

  lemma FooterFields(file: Bytes, p: nat, f: Footer)
    requires At(file, p, FooterBytes(f))
    ensures At(file, p, ToBytes(f.rows, SIZE_BYTES)) && At(file, p + 8, ToBytes(f.columns, SIZE_BYTES))
    ensures At(file, p + 16, ToBytes(f.batches, SIZE_BYTES)) && At(file, p + 24, ToBytes(f.flags, SIZE_BYTES))
    ensures At(file, p + 32, ToBytes(f.schemaOffset, SIZE_BYTES))
  {
    var a, b, c := ToBytes(f.rows, SIZE_BYTES), ToBytes(f.columns, SIZE_BYTES), ToBytes(f.batches, SIZE_BYTES);
    var d, e := ToBytes(f.flags, SIZE_BYTES), ToBytes(f.schemaOffset, SIZE_BYTES);
    AtSplit(file, p, a + b + c + d, e);
    AtSplit(file, p, a + b + c, d);
    AtSplit(file, p, a + b, c);
    AtSplit(file, p, a, b);
  }

  // Entry i of the schema section: a type byte, then a framed name.
  lemma {:induction false} SchemaEntryFound(file: Bytes, p: nat, schema: Schema, n: nat, i: nat)
    requires schema.Valid() && i < n <= |schema.names| && At(file, p, SchemaBytes(schema, n))
    ensures At(file, p + |SchemaBytes(schema, i)|, [TypeCode(schema.types[i])])
    ensures At(file, p + |SchemaBytes(schema, i)| + 1, Frame(schema.names[i]))
    ensures |SchemaBytes(schema, i + 1)| == |SchemaBytes(schema, i)| + 1 + |Frame(schema.names[i])|
  {
    AtSplit(file, p, SchemaBytes(schema, n - 1), SchemaEntry(schema.types[n - 1], schema.names[n - 1]));
    if i < n - 1 {
      SchemaEntryFound(file, p, schema, n - 1, i);
    } else {
      AtSplit(file, p + |SchemaBytes(schema, i)|, [TypeCode(schema.types[i])], Frame(schema.names[i]));
    }
  }

  // A framed byte string is read back as its length and its bytes.
  lemma FrameFound(file: Bytes, p: nat, bs: Bytes)
    requires At(file, p, Frame(bs)) && |file| < SIZE_LIMIT
    ensures p + SIZE_BYTES + |bs| <= |file|
    ensures FromBytes(file[p..p + SIZE_BYTES]) == |bs|
    ensures file[p + SIZE_BYTES..p + SIZE_BYTES + |bs|] == bs
  {
    AtSplit(file, p, ToBytes(|bs|, SIZE_BYTES), bs);
    SizeRoundTrip(|bs|);
  }
}
