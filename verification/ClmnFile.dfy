/** Whole files: a table written batch by batch and read back, in full or for some columns. */
module ClmnFile {
  import opened Words
  import opened Lz4
  import opened Codecs
  import opened Tables
  import opened Layout
  import opened Clmn
  import opened ClmnReader

  // As the CSV converter does: all batches, then the schema, then the footer.
  method WriteFile(batches: seq<Batch>, schema: Schema, codec: Codec) returns (file: Bytes)
    requires schema.Valid() && AllFit(batches, codec)
    ensures file == FileBytes(EncodedAll(batches, codec), schema, codec.flags)
  {
    hide EncodedOf, BatchFits, BatchesBytes, SchemaBytes, FooterBytes, TotalRows, EncodedAll;
    var writer := new WriterClmn(codec);
    for i := 0 to |batches|
      invariant writer.Valid() && fresh(writer) && !writer.schemaWritten && writer.codec == codec
      invariant writer.batches == EncodedAll(batches, codec)[..i]
    {
      EncodedNext(batches, codec, i);
      var ok := writer.WriteBatch(batches[i]);
    }
    ghost var es := EncodedAll(batches, codec);
    assert writer.batches == es;
    var ok := writer.WriteSchema(schema);
    assert |writer.file| == |BatchesBytes(es)| + |WholeSchema(schema)|;
    ok := writer.WriteFooter();
    file := writer.file;
  }

  lemma EncodedNext(batches: seq<Batch>, codec: Codec, i: nat)
    requires AllFit(batches, codec) && i < |batches|
    ensures EncodedAll(batches, codec)[..i + 1] == EncodedAll(batches, codec)[..i] + [EncodedOf(batches[i], codec)]
  {
    hide EncodedOf, BatchFits;
    var es := EncodedAll(batches, codec);
    assert es[..i + 1] == es[..i] + [es[i]];
  }

  // A batch reduced to what a reader given some names asks for.
  function Asked(b: Batch, requested: Option<seq<Bytes>>): Batch
    requires WellFormed(b)
  {
    Project(b, Selection(b.schema.names, requested))
  }

  // The requested columns of the batch come back.
  predicate AskedRestorable(b: Batch, codec: Codec, requested: Option<seq<Bytes>>) {
    BatchRestorable(b, codec, Selection(b.schema.names, requested))
  }

  // What the reader returns for the batch.
  ghost predicate IsRead(r: Batch, b: Batch, codec: Codec, requested: Option<seq<Bytes>>) {
    && BatchLegible(b, codec, Selection(b.schema.names, requested))
    && r == Delivered(b, codec, Selection(b.schema.names, requested))
  }

  lemma ReadThrough(batches: seq<Batch>, schema: Schema, codec: Codec, requested: Option<seq<Bytes>>, i: nat)
    requires Readable(batches, schema, codec, requested) && i < |batches|
    ensures WellFormed(batches[i]) && batches[i].schema == schema
    ensures IsRead(Delivered(batches[i], codec, Selection(schema.names, requested)), batches[i], codec, requested)
  {
    hide Legible, Returned;
  }

  lemma ReadExactly(r: Batch, b: Batch, codec: Codec, requested: Option<seq<Bytes>>)
    requires IsRead(r, b, codec, requested)
    ensures WellFormed(b) && (r == Asked(b, requested) <==> AskedRestorable(b, codec, requested))
  {
    hide Legible, Returned, BatchRestorable;
    DeliveredExactly(b, codec, Selection(b.schema.names, requested));
  }

  // As scans do: the schema once, then batches until there are none.
  method ReadFile(file: Bytes, requested: Option<seq<Bytes>>, library: Library,
      ghost batches: seq<Batch>, ghost schema: Schema, ghost codec: Codec)
    returns (readSchema: Schema, read: seq<Batch>)
    requires Readable(batches, schema, codec, requested) && library == codec.library
    requires file == FileBytes(EncodedAll(batches, codec), schema, codec.flags)
    ensures readSchema == PickSchema(schema, Selection(schema.names, requested))
    ensures |read| == |batches|
    ensures forall i :: 0 <= i < |batches| ==> IsRead(read[i], batches[i], codec, requested)
  {
    hide EncodedAll, FileBytes, Readable, BatchLegible, Delivered, PickSchema, Selection, IsRead;
    hide ReaderClmn.Valid, ReaderClmn.Opened;
    var reader := new ReaderClmn(file, requested, library, batches, schema, codec);
    reader.ReadSchema();
    var found := reader.GetSchema();
    readSchema := found.value;
    read := [];
    while true
      invariant reader.Valid() && fresh(reader) && reader.schemaRead && reader.requested == requested
      invariant reader.batches == batches && reader.fullSchema == schema && reader.codec == codec
      invariant |read| == reader.currentBatch <= |batches|
      invariant forall i :: 0 <= i < |read| ==> IsRead(read[i], batches[i], codec, requested)
      decreases |batches| - |read|
    {
      var r := reader.ReadBatch();
      if !r.Read? {
        break;
      }
      ReadThrough(batches, schema, codec, requested, |read|);
      read := read + [r.batch];
    }
  }

  // A written table is read back whole, or exactly its requested columns, batch by batch, if and only if these columns
  // come back.
  method WriteThenRead(batches: seq<Batch>, schema: Schema, codec: Codec, requested: Option<seq<Bytes>>)
    returns (readSchema: Schema, read: seq<Batch>)
    requires Readable(batches, schema, codec, requested)
    ensures requested.None? ==> readSchema == schema
    ensures requested.Some? ==> readSchema.names == Existing(schema.names, requested.value)
    ensures |read| == |batches|
    ensures forall i :: 0 <= i < |batches| ==>
      && WellFormed(batches[i])
      && (read[i] == Asked(batches[i], requested) <==> AskedRestorable(batches[i], codec, requested))
    ensures requested.None? ==>
      (read == batches <==> forall i :: 0 <= i < |batches| ==> AskedRestorable(batches[i], codec, None))
  {
    hide EncodedAll, FileBytes, BatchFits, BatchLegible, TotalRows, IsRead, AskedRestorable, Selection, PickSchema;
    var file := WriteFile(batches, schema, codec);
    readSchema, read := ReadFile(file, requested, codec.library, batches, schema, codec);
    forall i | 0 <= i < |batches|
      ensures WellFormed(batches[i])
      ensures read[i] == Asked(batches[i], requested) <==> AskedRestorable(batches[i], codec, requested)
      ensures requested.None? ==> Asked(batches[i], requested) == batches[i]
    {
      ReadExactly(read[i], batches[i], codec, requested);
      AskedAll(batches[i]);
    }
    SchemaAsked(schema, requested);
  }

  lemma AskedAll(b: Batch)
    requires WellFormed(b)
    ensures Asked(b, None) == b
  {
    ProjectAllIsIdentity(b);
  }

  lemma SchemaAsked(schema: Schema, requested: Option<seq<Bytes>>)
    requires schema.Valid()
    ensures var r := PickSchema(schema, Selection(schema.names, requested));
      if requested.None? then r == schema else r.names == Existing(schema.names, requested.value)
  {
    match requested {
      case None => PickAll(schema);
      case Some(wanted) => SelectedNames(schema.names, wanted);
    }
  }
}
