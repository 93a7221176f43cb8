/** Reading a clmn file: sections found through stored offsets, only the selected columns decoded. */
module ClmnReader {
  import opened Words
  import opened Values
  import opened PackedWords
  import opened Lz4
  import opened Dict
  import opened Encoding
  import opened Codecs
  import opened Tables
  import opened Layout
  import opened Clmn

  // Stream positions are signed 64-bit numbers.
  const STREAM_LIMIT: nat := 0x8000_0000_0000_0000

  predicate AllFit(batches: seq<Batch>, codec: Codec) {
    forall i :: 0 <= i < |batches| ==> BatchFits(batches[i], codec)
  }

  // A stored column that is read without an exception and within its bytes.
  predicate Legible(t: Type, v: seq<Value>, codec: Codec) {
    Storable(t, v, codec) && ParseStored(codec.library, t, Stored(t, v, codec), |v|, codec.flags).Some?
  }

  // What is read.
  function Returned(t: Type, v: seq<Value>, codec: Codec): seq<Value>
    requires Legible(t, v, codec)
  {
    ParseStored(codec.library, t, Stored(t, v, codec), |v|, codec.flags).value
  }

  // A column that comes back.
  predicate Restorable(t: Type, v: seq<Value>, codec: Codec) {
    Legible(t, v, codec) && Returned(t, v, codec) == v
  }

  // With a sound library, columns LZ4 does not have to cut are legible, and come back exactly when they survive
  // the other steps.
  lemma RestorableExactly(t: Type, v: seq<Value>, codec: Codec)
    requires Sound(codec.library) && Encodable(t, v, codec.flags) && Compressible(t, v, codec.flags)
    ensures Legible(t, v, codec) && Returned(t, v, codec) == Reread(t, v, codec.flags)
    ensures Restorable(t, v, codec) <==> Survives(t, v, UsedMode(t, v, codec.flags))
  {
    hide StoredBytes, ParseStored, Encodable, Survives, Reread, UsedMode;
    StoredRoundTrip(codec.library, t, v, codec.flags);
  }

  // So columns of at most 2^32 values without both zeros come back.
  lemma ShortColumnRestorable(t: Type, v: seq<Value>, codec: Codec)
    requires Sound(codec.library) && Encodable(t, v, codec.flags) && Compressible(t, v, codec.flags)
    requires |v| <= 0x1_0000_0000 && ZerosAgree(t, v)
    ensures Restorable(t, v, codec)
  {
    hide ColumnBytes, ParseColumn, Encodable, Survives, UsedMode, Legible, Restorable, Compressible;
    RestorableExactly(t, v, codec);
    ShortColumnRoundTrip(t, v, codec.flags);
    ColumnRoundTrip(t, v, codec.flags);
  }

  // ---------------------------------------------------------------- selection

  // The places of the requested names that exist, in requested order.
  function SelectedIndices(names: seq<Bytes>, requested: seq<Bytes>): (indices: seq<nat>)
    ensures forall j :: 0 <= j < |indices| ==> indices[j] < |names|
  {
    if |requested| == 0 then []
    else
      var others := SelectedIndices(names, requested[..|requested| - 1]);
      var index := ColumnIndex(names, requested[|requested| - 1]);
      if index < |names| then others + [index] else others
  }

  function Selection(names: seq<Bytes>, requested: Option<seq<Bytes>>): (indices: seq<nat>)
    ensures forall j :: 0 <= j < |indices| ==> indices[j] < |names|
  {
    match requested
    case None => AllIndices(|names|)
    case Some(wanted) => SelectedIndices(names, wanted)
  }

  function PickSchema(schema: Schema, indices: seq<nat>): (r: Schema)
    requires schema.Valid() && forall j :: 0 <= j < |indices| ==> indices[j] < |schema.names|
    ensures r.Valid()
  {
    Schema(Pick(schema.names, indices), Pick(schema.types, indices))
  }

  // A batch reduced to some of its columns.
  function Project(b: Batch, indices: seq<nat>): Batch
    requires WellFormed(b) && forall j :: 0 <= j < |indices| ==> indices[j] < |b.columns|
  {
    Batch(b.rows, PickSchema(b.schema, indices), Pick(b.columns, indices))
  }

  predicate Selects(indices: seq<nat>, b: Batch) {
    forall j :: 0 <= j < |indices| ==> indices[j] < |b.columns|
  }

  // The selected columns of a batch are legible; the others need not be.
  predicate BatchLegible(b: Batch, codec: Codec, indices: seq<nat>) {
    && WellFormed(b) && Selects(indices, b)
    && forall j :: 0 <= j < |indices| ==> Legible(b.schema.types[indices[j]], b.columns[indices[j]], codec)
  }

  // What reading those columns returns.
  function Delivered(b: Batch, codec: Codec, indices: seq<nat>): Batch
    requires BatchLegible(b, codec, indices)
  {
    Batch(b.rows, PickSchema(b.schema, indices),
          seq(|indices|, j requires 0 <= j < |indices| =>
            Returned(b.schema.types[indices[j]], b.columns[indices[j]], codec)))
  }

  predicate BatchRestorable(b: Batch, codec: Codec, indices: seq<nat>) {
    && WellFormed(b) && Selects(indices, b)
    && forall j :: 0 <= j < |indices| ==> Restorable(b.schema.types[indices[j]], b.columns[indices[j]], codec)
  }

  // What is read is what was written, reduced to the selection, exactly when the selected columns come back.
  lemma DeliveredExactly(b: Batch, codec: Codec, indices: seq<nat>)
    requires BatchLegible(b, codec, indices)
    ensures Delivered(b, codec, indices) == Project(b, indices) <==> BatchRestorable(b, codec, indices)
  {
    hide Legible, Returned;
    var read, written := Delivered(b, codec, indices).columns, Project(b, indices).columns;
    if Delivered(b, codec, indices) == Project(b, indices) {
      forall j | 0 <= j < |indices|
        ensures Restorable(b.schema.types[indices[j]], b.columns[indices[j]], codec)
      {
        assert read[j] == written[j];
      }
    }
  }

  // So batches of at most 2^32 rows, without both zeros in a selected column, come back under every flag word.
  lemma ShortBatchRestorable(b: Batch, codec: Codec, indices: seq<nat>)
    requires Sound(codec.library) && WellFormed(b) && Selects(indices, b) && b.rows <= 0x1_0000_0000
    requires forall j :: 0 <= j < |indices| ==>
      var t, v := b.schema.types[indices[j]], b.columns[indices[j]];
      Encodable(t, v, codec.flags) && Compressible(t, v, codec.flags) && ZerosAgree(t, v)
    ensures BatchRestorable(b, codec, indices) && BatchLegible(b, codec, indices)
  {
    hide Encodable, Compressible, ZerosAgree, Legible, Returned;
    forall j | 0 <= j < |indices|
      ensures Restorable(b.schema.types[indices[j]], b.columns[indices[j]], codec)
    {
      ShortColumnRestorable(b.schema.types[indices[j]], b.columns[indices[j]], codec);
    }
  }

  // The files the writer produces from same-schema batches whose counters stay in range, when the requested columns
  // are legible.
  predicate Readable(batches: seq<Batch>, schema: Schema, codec: Codec, requested: Option<seq<Bytes>>) {
    && schema.Valid() && codec.flags < SIZE_LIMIT && AllFit(batches, codec)
    && (forall i :: 0 <= i < |batches| ==>
          && batches[i].schema == schema
          && BatchLegible(batches[i], codec, Selection(schema.names, requested)))
    && TotalRows(EncodedAll(batches, codec)) < SIZE_LIMIT
    && |FileBytes(EncodedAll(batches, codec), schema, codec.flags)| < STREAM_LIMIT
  }

  lemma ProjectAllIsIdentity(b: Batch)
    requires WellFormed(b)
    ensures Project(b, AllIndices(|b.columns|)) == b
  {
    assert Pick(b.columns, AllIndices(|b.columns|)) == b.columns;
    assert Pick(b.schema.names, AllIndices(|b.columns|)) == b.schema.names;
    assert Pick(b.schema.types, AllIndices(|b.columns|)) == b.schema.types;
  }

  // Exactly the requested names that exist are selected, duplicates and order kept.
  lemma {:induction false} SelectedNames(names: seq<Bytes>, requested: seq<Bytes>)
    ensures Pick(names, SelectedIndices(names, requested)) == Existing(names, requested)
  {
    if |requested| > 0 {
      var front, last := requested[..|requested| - 1], requested[|requested| - 1];
      SelectedNames(names, front);
      var index := ColumnIndex(names, last);
      assert last in names <==> index < |names|;
      if index < |names| {
        assert Pick(names, SelectedIndices(names, front) + [index])
            == Pick(names, SelectedIndices(names, front)) + [names[index]];
      }
    }
  }

  function Existing(names: seq<Bytes>, requested: seq<Bytes>): seq<Bytes> {
    if |requested| == 0 then []
    else
      var others := Existing(names, requested[..|requested| - 1]);
      var last := requested[|requested| - 1];
      if last in names then others + [last] else others
  }

  // The requested names that exist, in the order of the request, one by one.
  lemma {:induction false} ExistingConcat(names: seq<Bytes>, a: seq<Bytes>, b: seq<Bytes>)
    ensures Existing(names, a + b) == Existing(names, a) + Existing(names, b)
    ensures |b| == 1 ==> Existing(names, b) == if b[0] in names then b else []
  {
    if |b| == 0 {
      assert a + b == a;
    } else {
      assert (a + b)[..|a + b| - 1] == a + b[..|b| - 1];
      ExistingConcat(names, a, b[..|b| - 1]);
    }
  }

  // A name stands for the first column that has it.
  lemma {:induction false} SelectedAreFirst(names: seq<Bytes>, requested: seq<Bytes>, j: nat)
    requires j < |SelectedIndices(names, requested)|
    ensures var index := SelectedIndices(names, requested)[j];
            index < |names| && names[index] !in names[..index]
  {
    var n := |requested| - 1;
    if j < |SelectedIndices(names, requested[..n])| {
      SelectedAreFirst(names, requested[..n], j);
    }
  }

  // A projection has the selected columns, as they are named and typed.
  lemma ProjectIs(b: Batch, indices: seq<nat>, j: nat)
    requires WellFormed(b) && Selects(indices, b) && j < |indices|
    ensures var p := Project(b, indices);
      && p.rows == b.rows && |p.columns| == |p.schema.names| == |p.schema.types| == |indices|
      && p.columns[j] == b.columns[indices[j]] && p.schema.names[j] == b.schema.names[indices[j]]
      && p.schema.types[j] == b.schema.types[indices[j]]
  {
  }

  // ------------------------------------------------------------ facts about files

  lemma BatchNotEmpty(e: Encoded)
    ensures |BatchBytes(e)| >= 1
  {
  }

  lemma {:induction false} CountsBelowSizes(batches: seq<Encoded>, i: nat)
    requires i < |batches|
    ensures |batches| <= |BatchesBytes(batches)| && batches[i].rows <= TotalRows(batches)
  {
    hide BatchBytes;
    var n := |batches| - 1;
    BatchNotEmpty(batches[n]);
    if i < n {
      CountsBelowSizes(batches[..n], i);
    } else if n > 0 {
      CountsBelowSizes(batches[..n], 0);
    }
  }

  lemma {:induction false} NamesBelowSize(schema: Schema, n: nat)
    requires schema.Valid() && n <= |schema.names|
    ensures n <= |SchemaBytes(schema, n)|
  {
    if n > 0 {
      NamesBelowSize(schema, n - 1);
    }
  }

  // Every footer field fits the eight bytes it is stored in.
  lemma FooterInRange(es: seq<Encoded>, schema: Schema, flags: nat)
    requires schema.Valid() && flags < SIZE_LIMIT && TotalRows(es) < SIZE_LIMIT
    requires |FileBytes(es, schema, flags)| < STREAM_LIMIT
    ensures var f := FooterOf(es, schema, flags);
            && f.columns < SIZE_LIMIT && f.batches < SIZE_LIMIT && f.schemaOffset < SIZE_LIMIT
            && FOOTER_BYTES <= f.schemaOffset <= |FileBytes(es, schema, flags)|
  {
    NamesBelowSize(schema, |schema.names|);
    if |es| > 0 {
      CountsBelowSizes(es, 0);
    }
  }

  lemma SizeFound(file: Bytes, p: nat, n: nat)
    requires At(file, p, ToBytes(n, SIZE_BYTES)) && n < SIZE_LIMIT
    ensures p + SIZE_BYTES <= |file| && FromBytes(file[p..p + SIZE_BYTES]) == n
  {
    SizeRoundTrip(n);
  }

  // Where batch i lies in a file, and that its numbers fit eight bytes.
  lemma BatchInFile(es: seq<Encoded>, schema: Schema, flags: nat, i: nat)
    requires schema.Valid() && i < |es| && TotalRows(es) < SIZE_LIMIT
    requires |FileBytes(es, schema, flags)| < STREAM_LIMIT
    ensures var file, p := FileBytes(es, schema, flags), BatchStart(es, i);
            && At(file, p, BatchBytes(es[i])) && es[i].rows < SIZE_LIMIT
            && BatchStart(es, i + 1) == p + |BatchBytes(es[i])| <= |file|
  {
    FileSections(es, schema, flags);
    BatchFoundIn(FileBytes(es, schema, flags), es, i);
    CountsBelowSizes(es, i);
  }

  lemma ColumnsCounted(b: Batch, codec: Codec, e: Encoded)
    requires BatchFits(b, codec) && e == EncodedOf(b, codec)
    ensures |b.columns| == |b.schema.names| == |b.schema.types| == |e.parts|
  {
    hide Stored;
  }

  lemma OffsetsAre(parts: seq<Bytes>)
    ensures |Offsets(parts)| == |parts|
    ensures forall i :: 0 <= i < |parts| ==> Offsets(parts)[i] == PartOffset(parts, i)
  {
  }

  lemma ColumnOfBatch(b: Batch, codec: Codec, indices: seq<nat>, e: Encoded, j: nat)
    requires BatchLegible(b, codec, indices) && BatchFits(b, codec) && e == EncodedOf(b, codec) && j < |indices|
    ensures var i := indices[j];
      && i < |e.parts| == |b.columns| == |b.schema.types| && |b.columns[i]| == b.rows && !b.schema.types[i].Int128?
      && Legible(b.schema.types[i], b.columns[i], codec)
      && e.parts[i] == Stored(b.schema.types[i], b.columns[i], codec)
  {
    hide Stored, StoredBytes, ParseStored;
    EncodedColumn(b, codec, |b.columns|, indices[j]);
  }

  // ----------------------------------------------------------------- the reader

  // What a batch looks like to a reader: rejected before ReadSchema, none when all are read.
  datatype ReadResult = Rejected | Exhausted | Read(batch: Batch)

  // The places found are appended to those already selected; the schema is built afresh.
  method SelectColumns(full: Schema, wanted: seq<Bytes>, before: seq<nat>)
    returns (indices: seq<nat>, selected: Schema)
    requires full.Valid()
    ensures indices == before + SelectedIndices(full.names, wanted)
    ensures selected == PickSchema(full, SelectedIndices(full.names, wanted))
  {
    var names, types := [], [];
    indices := before;
    ghost var found: seq<nat> := [];
    for k := 0 to |wanted|
      invariant found == SelectedIndices(full.names, wanted[..k]) && indices == before + found
      invariant names == Pick(full.names, found) && types == Pick(full.types, found)
    {
      assert wanted[..k + 1][..k] == wanted[..k];
      var index := FindColumn(full, wanted[k]);
      if index < |full.names| {
        found := found + [index];
        indices := indices + [index];
        names := names + [wanted[k]];
        types := types + [full.types[index]];
      }
    }
    assert wanted[..|wanted|] == wanted;
    selected := Schema(names, types);
  }

  // Only the first batch starts where the file does.
  lemma StartsWithFirst(es: seq<Encoded>, i: nat)
    requires i <= |es|
    ensures BatchStart(es, i) == 0 <==> i == 0
  {
    if i > 0 {
      CountsBelowSizes(es[..i], 0);
    }
  }

  lemma RowsEncoded(b: Batch, codec: Codec, e: Encoded)
    requires BatchFits(b, codec) && e == EncodedOf(b, codec)
    ensures e.rows == b.rows
  {
  }

  lemma {:induction false} FramesGrow(parts: seq<Bytes>, i: nat)
    requires i <= |parts|
    ensures PartOffset(parts, i) <= PartOffset(parts, |parts|)
    decreases |parts| - i
  {
    if i < |parts| {
      assert parts[..i + 1][..i] == parts[..i];
      FramesGrow(parts, i + 1);
    }
  }

  // All offsets of a batch fit eight bytes, because they lie inside the file.
  lemma OffsetsInFile(file: Bytes, p: nat, e: Encoded)
    requires At(file, p, BatchBytes(e)) && |file| < STREAM_LIMIT
    ensures PartOffset(e.parts, |e.parts|) < SIZE_LIMIT
    ensures forall i :: 0 <= i < |e.parts| ==> PartOffset(e.parts, i) < SIZE_LIMIT
  {
    BatchSections(file, p, e);
    forall i | 0 <= i < |e.parts|
      ensures PartOffset(e.parts, i) < SIZE_LIMIT
    {
      FramesGrow(e.parts, i);
    }
  }

  lemma SchemaStarts(schema: Schema)
    requires schema.Valid()
    ensures |SchemaBytes(schema, 0)| == 0 && WholeSchema(schema) == SchemaBytes(schema, |schema.names|)
  {
  }

  lemma TypeFound(file: Bytes, p: nat, t: Type)
    requires At(file, p, [TypeCode(t)])
    ensures p < |file| && file[p] < 10 && TypeOfCode(file[p]) == t
  {
    assert file[p..p + 1][0] == file[p];
  }

  lemma SchemaPlaced(es: seq<Encoded>, schema: Schema, flags: nat)
    requires schema.Valid()
    ensures var file, offset := FileBytes(es, schema, flags), |WholeSchema(schema)| + FOOTER_BYTES;
            offset <= |file| && At(file, |file| - offset, WholeSchema(schema))
    ensures BatchStart(es, 0) == 0
  {
    FileSections(es, schema, flags);
  }

  lemma PickAll(schema: Schema)
    requires schema.Valid()
    ensures PickSchema(schema, AllIndices(|schema.names|)) == schema
  {
    assert Pick(schema.names, AllIndices(|schema.names|)) == schema.names;
    assert Pick(schema.types, AllIndices(|schema.names|)) == schema.types;
  }

  // Everything a reader standing at the start of batch i relies on.
  lemma BatchNext(batches: seq<Batch>, schema: Schema, codec: Codec, requested: Option<seq<Bytes>>, i: nat)
    returns (e: Encoded)
    requires Readable(batches, schema, codec, requested) && i < |batches|
    ensures BatchLegible(batches[i], codec, Selection(schema.names, requested)) && BatchFits(batches[i], codec)
    ensures e == EncodedOf(batches[i], codec) && batches[i].rows < SIZE_LIMIT && batches[i].schema == schema
    ensures var es := EncodedAll(batches, codec);
            var file := FileBytes(es, schema, codec.flags);
            && |file| < STREAM_LIMIT && At(file, BatchStart(es, i), BatchBytes(e))
            && BatchStart(es, i + 1) == BatchStart(es, i) + |BatchBytes(e)|
  {
    hide BatchBytes, FileBytes, TotalRows, Legible, Storable;
    var es := EncodedAll(batches, codec);
    e := es[i];
    BatchInFile(es, schema, codec.flags, i);
  }

  lemma FooterRead(es: seq<Encoded>, schema: Schema, flags: nat)
    requires schema.Valid() && flags < SIZE_LIMIT && TotalRows(es) < SIZE_LIMIT
    requires |FileBytes(es, schema, flags)| < STREAM_LIMIT
    ensures var file, f := FileBytes(es, schema, flags), FooterOf(es, schema, flags);
            && FOOTER_BYTES <= |file|
            && var p := |file| - FOOTER_BYTES;
               && FromBytes(file[p..p + 8]) == f.rows && FromBytes(file[p + 8..p + 16]) == f.columns
               && FromBytes(file[p + 16..p + 24]) == f.batches && FromBytes(file[p + 24..p + 32]) == f.flags
               && FromBytes(file[p + 32..p + 40]) == f.schemaOffset
  {
    var file, f := FileBytes(es, schema, flags), FooterOf(es, schema, flags);
    FileSections(es, schema, flags);
    FooterInRange(es, schema, flags);
    FooterFields(file, |file| - FOOTER_BYTES, f);
    SizeFound(file, |file| - FOOTER_BYTES, f.rows);
    SizeFound(file, |file| - FOOTER_BYTES + 8, f.columns);
    SizeFound(file, |file| - FOOTER_BYTES + 16, f.batches);
    SizeFound(file, |file| - FOOTER_BYTES + 24, f.flags);
    SizeFound(file, |file| - FOOTER_BYTES + 32, f.schemaOffset);
  }

  class ReaderClmn {
    // fin_: the file's contents and the get position.
    const file: Bytes
    var pos: nat
    var rowsNumber: nat
    var columnsNumber: nat
    var batchesNumber: nat
    var compressionFlags: nat
    var schemaOffset: nat
    var currentBatch: nat
    var schemaRead: bool
    const requested: Option<seq<Bytes>>
    // The LZ4 library the program is linked with.
    const library: Library
    var schema: Schema
    var selectedIndices: seq<nat>

    // What was written.
    ghost const batches: seq<Batch>
    ghost const fullSchema: Schema
    ghost const codec: Codec

    // An open file and its footer.
    ghost predicate Opened()
      reads this
    {
      && Readable(batches, fullSchema, codec, requested)
      && file == FileBytes(EncodedAll(batches, codec), fullSchema, codec.flags)
      && columnsNumber == |fullSchema.names| && batchesNumber == |batches|
      && compressionFlags == codec.flags && library == codec.library
      && schemaOffset == |WholeSchema(fullSchema)| + FOOTER_BYTES
      && currentBatch <= |batches|
    }

    ghost predicate Valid()
      reads this
    {
      && Opened()
      && (schemaRead ==>
            && selectedIndices == Selection(fullSchema.names, requested)
            && schema == PickSchema(fullSchema, selectedIndices)
            && pos == BatchStart(EncodedAll(batches, codec), currentBatch))
    }

    constructor (file: Bytes, requested: Option<seq<Bytes>>, library: Library,
        ghost batches: seq<Batch>, ghost fullSchema: Schema, ghost codec: Codec)
      requires Readable(batches, fullSchema, codec, requested)
      requires file == FileBytes(EncodedAll(batches, codec), fullSchema, codec.flags)
      requires library == codec.library
      ensures Opened() && Valid() && !schemaRead && currentBatch == 0 && selectedIndices == []
      ensures this.requested == requested
      ensures this.batches == batches && this.fullSchema == fullSchema && this.codec == codec
      ensures rowsNumber == TotalRows(EncodedAll(batches, codec))
    {
      hide EncodedAll, FileBytes, BatchLegible, BatchFits, TotalRows;
      FooterRead(EncodedAll(batches, codec), fullSchema, codec.flags);
      this.file, this.requested, this.library := file, requested, library;
      this.batches, this.fullSchema, this.codec := batches, fullSchema, codec;
      currentBatch, schemaRead := 0, false;
      schema, selectedIndices := Schema([], []), [];
      var p := |file| - 5 * SIZE_BYTES;
      rowsNumber := FromBytes(file[p..p + 8]);
      columnsNumber := FromBytes(file[p + 8..p + 16]);
      batchesNumber := FromBytes(file[p + 16..p + 24]);
      compressionFlags := FromBytes(file[p + 24..p + 32]);
      schemaOffset := FromBytes(file[p + 32..p + 40]);
      pos := |file|;
    }

    method ReadSize() returns (n: nat)
      requires pos + SIZE_BYTES <= |file|
      modifies `pos
      ensures n == FromBytes(file[old(pos)..old(pos) + SIZE_BYTES]) && pos == old(pos) + SIZE_BYTES
    {
      n := FromBytes(file[pos..pos + SIZE_BYTES]);
      pos := pos + SIZE_BYTES;
    }

    // A length and that many bytes.
    method ReadFrame(ghost bs: Bytes) returns (r: Bytes)
      requires At(file, pos, Frame(bs)) && |file| < SIZE_LIMIT
      modifies `pos
      ensures r == bs && pos == old(pos) + |Frame(bs)|
    {
      FrameFound(file, pos, bs);
      var size := ReadSize();
      r := file[pos..pos + size];
      pos := pos + size;
    }

    method ReadColumn(t: Type, rows: nat, ghost column: seq<Value>) returns (r: seq<Value>)
      requires compressionFlags == codec.flags && library == codec.library
      requires Legible(t, column, codec) && |column| == rows && !t.Int128?
      requires At(file, pos, Frame(Stored(t, column, codec))) && |file| < SIZE_LIMIT
      modifies `pos
      ensures r == Returned(t, column, codec)
    {
      hide StoredBytes, ParseStored, Encodable, Frame;
      var data := ReadFrame(Stored(t, column, codec));
      var decoded := DecodeColumn(library, t, data, rows, compressionFlags);
      r := decoded.value;
    }

    // The columns of one batch, each reached through its stored offset.
    method ReadColumns(batchStart: nat, columnOffsets: seq<nat>, rows: nat, ghost b: Batch, ghost e: Encoded)
      returns (columns: seq<seq<Value>>)
      requires |file| < STREAM_LIMIT && compressionFlags == codec.flags && library == codec.library
      requires fullSchema.Valid() && b.schema == fullSchema && b.rows == rows
      requires BatchLegible(b, codec, selectedIndices) && BatchFits(b, codec) && e == EncodedOf(b, codec)
      requires forall j :: 0 <= j < |selectedIndices| ==> selectedIndices[j] < |fullSchema.names|
      requires schema == PickSchema(fullSchema, selectedIndices)
      requires At(file, batchStart, BatchBytes(e)) && columnOffsets == Offsets(e.parts)
      modifies `pos
      ensures columns == Delivered(b, codec, selectedIndices).columns
    {
      hide Stored, Storable, BatchBytes, BatchLegible, BatchFits, EncodedOf, Legible, Returned, Frame, Offsets;
      columns := [];
      ColumnsCounted(b, codec, e);
      OffsetsAre(e.parts);
      for j := 0 to |selectedIndices|
        invariant |columns| == j
        invariant forall k :: 0 <= k < j ==> columns[k] == Delivered(b, codec, selectedIndices).columns[k]
      {
        var i := selectedIndices[j];
        ColumnOfBatch(b, codec, selectedIndices, e, j);
        ColumnFound(file, batchStart, e, i);
        pos := batchStart + columnOffsets[i];
        var column := ReadColumn(schema.types[j], rows, b.columns[i]);
        columns := columns + [column];
      }
    }

    method ReadSizes(count: nat, ghost us: seq<nat>) returns (sizes: seq<nat>)
      requires At(file, pos, RawWords(us, SIZE_BYTES)) && |us| == count
      requires forall i :: 0 <= i < |us| ==> us[i] < SIZE_LIMIT
      modifies `pos
      ensures sizes == us && pos == old(pos) + SIZE_BYTES * count
    {
      hide RawWords, FromBytes, ToBytes;
      RawWordsSize(us, SIZE_BYTES);
      sizes := [];
      for i := 0 to count
        invariant pos == old(pos) + SIZE_BYTES * i
        invariant sizes == us[..i]
      {
        RawWordAt(file, old(pos), us, i);
        SizeFound(file, pos, us[i]);
        var size := ReadSize();
        sizes := sizes + [size];
      }
    }

    // From the metadata offset to the row count and column offsets, then to the columns and back.
    method ReadBatchAt(ghost b: Batch, ghost e: Encoded) returns (rows: nat, columns: seq<seq<Value>>)
      requires |file| < STREAM_LIMIT && compressionFlags == codec.flags && library == codec.library
      requires fullSchema.Valid() && b.schema == fullSchema && columnsNumber == |fullSchema.names|
      requires BatchLegible(b, codec, selectedIndices) && BatchFits(b, codec) && e == EncodedOf(b, codec)
      requires b.rows < SIZE_LIMIT
      requires forall j :: 0 <= j < |selectedIndices| ==> selectedIndices[j] < |fullSchema.names|
      requires schema == PickSchema(fullSchema, selectedIndices)
      requires At(file, pos, BatchBytes(e))
      modifies `pos
      ensures rows == b.rows && pos == old(pos) + |BatchBytes(e)|
      ensures columns == Delivered(b, codec, selectedIndices).columns
    {
      hide Stored, Storable, BatchBytes, BatchLegible, BatchFits, EncodedOf, Legible, Delivered, Offsets;
      hide PartOffset, RawWords, FramesBytes, ToBytes, FromBytes;
      var batchStart := pos;
      ColumnsCounted(b, codec, e);
      RowsEncoded(b, codec, e);
      OffsetsAre(e.parts);
      OffsetsInFile(file, pos, e);
      BatchSections(file, pos, e);
      SizeFound(file, pos, PartOffset(e.parts, |e.parts|));
      var metadataOffset := ReadSize();
      pos := batchStart + metadataOffset;
      SizeFound(file, pos, e.rows);
      rows := ReadSize();
      var columnOffsets := ReadSizes(columnsNumber, Offsets(e.parts));
      var nextBatchPos := pos;
      columns := ReadColumns(batchStart, columnOffsets, rows, b, e);
      pos := nextBatchPos;
    }

    // The names and types stored in the schema section.
    method ReadEntries() returns (names: seq<Bytes>, types: seq<Type>)
      requires fullSchema.Valid() && columnsNumber == |fullSchema.names| && |file| < STREAM_LIMIT
      requires At(file, pos, WholeSchema(fullSchema))
      modifies `pos
      ensures names == fullSchema.names && types == fullSchema.types
    {
      hide Frame, TypeCode, SchemaBytes;
      ghost var start := pos;
      names, types := [], [];
      SchemaStarts(fullSchema);
      for i := 0 to columnsNumber
        invariant pos == start + |SchemaBytes(fullSchema, i)|
        invariant names == fullSchema.names[..i] && types == fullSchema.types[..i]
      {
        SchemaEntryFound(file, start, fullSchema, columnsNumber, i);
        TypeFound(file, pos, fullSchema.types[i]);
        types := types + [TypeOfCode(file[pos])];
        pos := pos + 1;
        var name := ReadFrame(fullSchema.names[i]);
        names := names + [name];
      }
    }

    // A second call is harmless only without a request and before any batch is read: it selects the requested
    // columns again, behind those already selected, and goes back to the first batch without counting so.
    method ReadSchema()
      requires Opened()
      modifies this
      ensures Opened() && schemaRead && pos == 0 && currentBatch == old(currentBatch)
      ensures schema == PickSchema(fullSchema, Selection(fullSchema.names, requested))
      ensures selectedIndices == (if requested.None? then [] else old(selectedIndices))
                                 + Selection(fullSchema.names, requested)
      ensures Valid() <==> currentBatch == 0 && (requested.None? || old(selectedIndices) == [])
    {
      hide EncodedAll, FileBytes, BatchLegible, BatchFits, TotalRows, BatchStart, PickSchema, WholeSchema;
      SchemaPlaced(EncodedAll(batches, codec), fullSchema, codec.flags);
      pos := |file| - schemaOffset;
      var allNames, allTypes := ReadEntries();
      var full := Schema(allNames, allTypes);
      match requested {
        case None =>
          selectedIndices := AllIndices(|allNames|);
          assert [] + selectedIndices == selectedIndices;
          schema := full;
          PickAll(full);
        case Some(wanted) =>
          selectedIndices, schema := SelectColumns(full, wanted, selectedIndices);
      }
      StartsWithFirst(EncodedAll(batches, codec), currentBatch);
      schemaRead := true;
      pos := 0;
    }

    method GetSchema() returns (r: Option<Schema>)
      requires Valid()
      ensures r == if schemaRead then Some(PickSchema(fullSchema, Selection(fullSchema.names, requested))) else None
    {
      r := if schemaRead then Some(schema) else None;
    }

    // What decoding the selected columns of the next batch returns; the cursor moves past all its columns.
    method ReadBatch() returns (r: ReadResult)
      requires Valid()
      modifies `pos, `currentBatch
      ensures Valid() && currentBatch <= |batches|
      ensures !schemaRead ==> r == Rejected && currentBatch == old(currentBatch)
      ensures schemaRead && old(currentBatch) == |batches| ==> r == Exhausted && currentBatch == old(currentBatch)
      ensures schemaRead && old(currentBatch) < |batches| ==>
                && currentBatch == old(currentBatch) + 1
                && BatchLegible(batches[old(currentBatch)], codec, Selection(fullSchema.names, requested))
                && r == Read(Delivered(batches[old(currentBatch)], codec, Selection(fullSchema.names, requested)))
    {
      hide EncodedAll, FileBytes, BatchLegible, BatchFits, TotalRows, EncodedOf, WellFormed;
      hide BatchBytes, BatchesBytes, Returned;
      if !schemaRead {
        return Rejected;
      }
      if currentBatch >= batchesNumber {
        return Exhausted;
      }
      ghost var b := batches[currentBatch];
      ghost var e := BatchNext(batches, fullSchema, codec, requested, currentBatch);
      var rows, columns := ReadBatchAt(b, e);
      currentBatch := currentBatch + 1;
      return Read(Batch(rows, schema, columns));
    }
  }
}
