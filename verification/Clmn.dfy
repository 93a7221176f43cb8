/** The clmn writer: encoded batches with back-patched metadata offsets, then the schema, then the footer. */
module Clmn {
  import opened Words
  import opened Values
  import opened PackedWords
  import opened Codecs
  import opened Tables
  import opened Layout

  // A column the writer can store without an exception.
  predicate Storable(t: Type, v: seq<Value>, codec: Codec) {
    Encodable(t, v, codec.flags) && StoredBytes(codec.library, t, v, codec.flags).Some?
  }

  function Stored(t: Type, v: seq<Value>, codec: Codec): Bytes
    requires Storable(t, v, codec)
  {
    StoredBytes(codec.library, t, v, codec.flags).value
  }

  // What the writer asks of a batch under the file's compression flags.
  predicate BatchFits(b: Batch, codec: Codec) {
    WellFormed(b) && forall c :: 0 <= c < |b.columns| ==> Storable(b.schema.types[c], b.columns[c], codec)
  }

  // The encodings of the first n columns.
  function EncodedColumns(b: Batch, codec: Codec, n: nat): (parts: seq<Bytes>)
    requires BatchFits(b, codec) && n <= |b.columns|
    ensures |parts| == n
  {
    if n == 0 then []
    else EncodedColumns(b, codec, n - 1) + [Stored(b.schema.types[n - 1], b.columns[n - 1], codec)]
  }

  lemma {:induction false} EncodedColumn(b: Batch, codec: Codec, n: nat, i: nat)
    requires BatchFits(b, codec) && i < n <= |b.columns|
    ensures EncodedColumns(b, codec, n)[i] == Stored(b.schema.types[i], b.columns[i], codec)
    ensures EncodedColumns(b, codec, n)[..i] == EncodedColumns(b, codec, i)
  {
    hide Stored, Storable;
    if i < n - 1 {
      EncodedColumn(b, codec, n - 1, i);
      assert EncodedColumns(b, codec, n)[..i] == EncodedColumns(b, codec, n - 1)[..i];
    }
  }

  function EncodedOf(b: Batch, codec: Codec): (e: Encoded)
    requires BatchFits(b, codec)
    ensures e.rows == b.rows && |e.parts| == |b.columns|
  {
    Encoded(b.rows, EncodedColumns(b, codec, |b.columns|))
  }

  function EncodedAll(batches: seq<Batch>, codec: Codec): (es: seq<Encoded>)
    requires forall i :: 0 <= i < |batches| ==> BatchFits(batches[i], codec)
    ensures |es| == |batches|
  {
    seq(|batches|, i requires 0 <= i < |batches| => EncodedOf(batches[i], codec))
  }

  // Bytes written over the file from a position on, extending it as needed.
  function Overwrite(file: Bytes, pos: nat, bs: Bytes): Bytes
    requires pos <= |file|
  {
    file[..pos] + bs + if pos + |bs| < |file| then file[pos + |bs|..] else []
  }

  // ----------------------------------------- what one more write adds to a section

  lemma NextFrame(start: Bytes, parts: seq<Bytes>, i: nat)
    requires i < |parts|
    ensures start + FramesBytes(parts[..i + 1]) == start + FramesBytes(parts[..i]) + Frame(parts[i])
  {
    assert parts[..i + 1][..i] == parts[..i];
    ConcatAssociates(start, FramesBytes(parts[..i]), Frame(parts[i]));
  }

  lemma NextSize(start: Bytes, sizes: seq<nat>, i: nat)
    requires i < |sizes|
    ensures start + RawWords(sizes[..i + 1], SIZE_BYTES)
         == start + RawWords(sizes[..i], SIZE_BYTES) + ToBytes(sizes[i], SIZE_BYTES)
  {
    assert sizes[..i + 1] == sizes[..i] + [sizes[i]];
    RawWordsSnoc(sizes[..i], sizes[i], SIZE_BYTES);
    ConcatAssociates(start, RawWords(sizes[..i], SIZE_BYTES), ToBytes(sizes[i], SIZE_BYTES));
  }

  lemma NextEntry(start: Bytes, schema: Schema, i: nat)
    requires schema.Valid() && i < |schema.names|
    ensures start + SchemaBytes(schema, i + 1)
         == start + SchemaBytes(schema, i) + [TypeCode(schema.types[i])] + Frame(schema.names[i])
  {
    var sofar, code, name := SchemaBytes(schema, i), [TypeCode(schema.types[i])], Frame(schema.names[i]);
    ConcatAssociates(start, sofar, code + name);
    ConcatAssociates(start + sofar, code, name);
  }

  lemma FooterConcat(start: Bytes, f: Footer)
    ensures start + FooterBytes(f)
         == start + ToBytes(f.rows, SIZE_BYTES) + ToBytes(f.columns, SIZE_BYTES) + ToBytes(f.batches, SIZE_BYTES)
            + ToBytes(f.flags, SIZE_BYTES) + ToBytes(f.schemaOffset, SIZE_BYTES)
  {
    var a, b, c := ToBytes(f.rows, SIZE_BYTES), ToBytes(f.columns, SIZE_BYTES), ToBytes(f.batches, SIZE_BYTES);
    var d, e := ToBytes(f.flags, SIZE_BYTES), ToBytes(f.schemaOffset, SIZE_BYTES);
    ConcatAssociates(start, a + b + c + d, e);
    ConcatAssociates(start, a + b + c, d);
    ConcatAssociates(start, a + b, c);
    ConcatAssociates(start, a, b);
  }

  lemma BatchAdded(batches: seq<Encoded>, e: Encoded, more: seq<Encoded>)
    requires more == batches + [e]
    ensures BatchesBytes(more) == BatchesBytes(batches) + BatchBytes(e)
    ensures TotalRows(more) == TotalRows(batches) + e.rows
  {
    assert more[..|more| - 1] == batches;
  }

  lemma OverwriteMiddle(a: Bytes, b: Bytes, c: Bytes, bs: Bytes)
    requires |b| == |bs|
    ensures Overwrite(a + b + c, |a|, bs) == a + (bs + c)
  {
  }

  // Overwriting the placeholder in front of a batch yields the batch with its metadata offset.
  lemma BackPatched(before: Bytes, e: Encoded, placed: Bytes, meta: nat)
    requires placed == before + ToBytes(0, SIZE_BYTES) + FramesBytes(e.parts)
                       + ToBytes(e.rows, SIZE_BYTES) + RawWords(Offsets(e.parts), SIZE_BYTES)
    requires meta == SIZE_BYTES + |FramesBytes(e.parts)|
    ensures Overwrite(placed, |before|, ToBytes(meta, SIZE_BYTES)) == before + BatchBytes(e)
    ensures |before + BatchBytes(e)| == |placed|
  {
    assert e.parts[..|e.parts|] == e.parts;
    PatchConcat(before, ToBytes(0, SIZE_BYTES), ToBytes(meta, SIZE_BYTES), FramesBytes(e.parts),
                ToBytes(e.rows, SIZE_BYTES), RawWords(Offsets(e.parts), SIZE_BYTES));
  }

  lemma PatchConcat(before: Bytes, zero: Bytes, header: Bytes, frames: Bytes, rows: Bytes, words: Bytes)
    requires |zero| == |header|
    ensures Overwrite(before + zero + frames + rows + words, |before|, header)
         == before + (header + frames + rows + words)
  {
    ConcatAssociates(before + zero, frames, rows);
    ConcatAssociates(before + zero, frames + rows, words);
    OverwriteMiddle(before, zero, frames + rows + words, header);
    ConcatAssociates(header, frames, rows);
    ConcatAssociates(header, frames + rows, words);
  }

  class WriterClmn {
    // fout_: the file's contents and the put position.
    var file: Bytes
    var pos: nat
    var rowsNumber: nat
    var columnsNumber: nat
    var batchesNumber: nat
    var schemaStart: nat
    const codec: Codec
    var schemaWritten: bool

    ghost var batches: seq<Encoded>
    ghost var schema: Schema

    // Between calls the file holds exactly the sections written so far, and the cursor is at its end.
    ghost predicate Valid()
      reads this
    {
      && pos == |file| && rowsNumber == TotalRows(batches) && batchesNumber == |batches|
      && (!schemaWritten ==> file == BatchesBytes(batches))
      && (schemaWritten ==>
            && schema.Valid() && columnsNumber == |schema.names| && schemaStart == |BatchesBytes(batches)|
            && BatchesBytes(batches) + WholeSchema(schema) <= file)
    }

    constructor (codec: Codec)
      ensures Valid() && file == [] && batches == [] && !schemaWritten && this.codec == codec
    {
      file, pos := [], 0;
      rowsNumber, columnsNumber, batchesNumber, schemaStart := 0, 0, 0, 0;
      this.codec := codec;
      schemaWritten := false;
      batches, schema := [], Schema([], []);
    }

    method Write(bs: Bytes)
      requires pos <= |file|
      modifies `file, `pos
      ensures pos == old(pos) + |bs|
      ensures file == Overwrite(old(file), old(pos), bs)
    {
      file := Overwrite(file, pos, bs);
      pos := pos + |bs|;
    }

    method Append(bs: Bytes)
      requires pos == |file|
      modifies `file, `pos
      ensures pos == |file| && file == old(file) + bs
    {
      Write(bs);
    }

    method AppendFrame(bs: Bytes)
      requires pos == |file|
      modifies `file, `pos
      ensures pos == |file| && file == old(file) + Frame(bs)
    {
      ConcatAssociates(file, ToBytes(|bs|, SIZE_BYTES), bs);
      Append(ToBytes(|bs|, SIZE_BYTES));
      Append(bs);
    }

    method WriteColumn(t: Type, column: seq<Value>, ghost part: Bytes)
      requires pos == |file| && !t.Int128?
      requires Storable(t, column, codec) && part == Stored(t, column, codec)
      modifies `file, `pos
      ensures pos == |file| && file == old(file) + Frame(part)
    {
      var encoded := EncodeColumn(codec.library, t, column, codec.flags);
      AppendFrame(encoded.value);
    }

    method WriteColumns(batch: Batch, batchStart: nat, ghost parts: seq<Bytes>) returns (columnOffsets: seq<nat>)
      requires pos == |file| == batchStart + SIZE_BYTES
      requires BatchFits(batch, codec) && parts == EncodedOf(batch, codec).parts
      modifies `file, `pos
      ensures pos == |file| && columnOffsets == Offsets(parts) && file == old(file) + FramesBytes(parts)
    {
      hide Stored, Storable, Frame, ToBytes, EncodedColumns;
      ghost var start, offsets := file, Offsets(parts);
      columnOffsets := [];
      for i := 0 to |batch.columns|
        invariant pos == |file| && file == start + FramesBytes(parts[..i])
        invariant |columnOffsets| == i && columnOffsets == offsets[..i]
      {
        columnOffsets := columnOffsets + [pos - batchStart];
        assert columnOffsets[i] == offsets[i];
        NextFrame(start, parts, i);
        EncodedColumn(batch, codec, |batch.columns|, i);
        WriteColumn(batch.schema.types[i], batch.columns[i], parts[i]);
      }
      assert parts[..|batch.columns|] == parts;
    }

    method WriteSizes(sizes: seq<nat>)
      requires pos == |file|
      modifies `file, `pos
      ensures pos == |file| && file == old(file) + RawWords(sizes, SIZE_BYTES)
    {
      ghost var start := file;
      for i := 0 to |sizes|
        invariant pos == |file| && file == start + RawWords(sizes[..i], SIZE_BYTES)
      {
        NextSize(start, sizes, i);
        Append(ToBytes(sizes[i], SIZE_BYTES));
      }
      assert sizes[..|sizes|] == sizes;
    }

    // The bytes of a batch, its metadata offset patched in last.
    method PlaceBatch(batch: Batch, ghost e: Encoded)
      requires pos == |file| && BatchFits(batch, codec)
      requires e == EncodedOf(batch, codec)
      modifies `file, `pos
      ensures pos == |file| && file == old(file) + BatchBytes(e)
    {
      ghost var before := file;
      var batchStart := pos;
      Append(ToBytes(0, SIZE_BYTES));
      var columnOffsets := WriteColumns(batch, batchStart, e.parts);
      var metadataOffset := pos - batchStart;
      Append(ToBytes(batch.rows, SIZE_BYTES));
      WriteSizes(columnOffsets);
      var endPos := pos;
      pos := batchStart;
      ghost var placed := file;
      Write(ToBytes(metadataOffset, SIZE_BYTES));
      pos := endPos;
      BackPatched(before, e, placed, metadataOffset);
    }

    // False is the exception for a batch after the schema.
    method WriteBatch(batch: Batch) returns (ok: bool)
      requires Valid() && BatchFits(batch, codec)
      modifies this
      ensures Valid() && ok == !old(schemaWritten) && schemaWritten == old(schemaWritten)
      ensures ok ==> batches == old(batches) + [EncodedOf(batch, codec)]
      ensures !ok ==> file == old(file) && batches == old(batches) && schema == old(schema)
    {
      if schemaWritten {
        return false;
      }
      AddBatch(batch, EncodedOf(batch, codec));
      return true;
    }

    method AddBatch(batch: Batch, ghost e: Encoded)
      requires Valid() && !schemaWritten && BatchFits(batch, codec)
      requires e == EncodedOf(batch, codec)
      modifies this
      ensures Valid() && !schemaWritten && batches == old(batches) + [e]
    {
      hide EncodedOf, BatchFits, BatchBytes, BatchesBytes, TotalRows, SchemaBytes;
      ghost var more := batches + [e];
      BatchAdded(batches, e, more);
      rowsNumber := rowsNumber + batch.rows;
      batchesNumber := batchesNumber + 1;
      columnsNumber := |batch.columns|;
      PlaceBatch(batch, e);
      batches := more;
    }

    method WriteEntries(newSchema: Schema)
      requires pos == |file| && newSchema.Valid()
      modifies `file, `pos
      ensures pos == |file| && file == old(file) + WholeSchema(newSchema)
    {
      ghost var start := file;
      for i := 0 to |newSchema.names|
        invariant pos == |file| && file == start + SchemaBytes(newSchema, i)
      {
        NextEntry(start, newSchema, i);
        Append([TypeCode(newSchema.types[i])]);
        AppendFrame(newSchema.names[i]);
      }
    }

    // False is the exception for a second schema.
    method WriteSchema(newSchema: Schema) returns (ok: bool)
      requires Valid() && newSchema.Valid()
      modifies this
      ensures Valid() && ok == !old(schemaWritten) && schemaWritten && batches == old(batches)
      ensures ok ==> schema == newSchema && file == old(file) + WholeSchema(newSchema)
      ensures !ok ==> file == old(file) && schema == old(schema)
    {
      if schemaWritten {
        return false;
      }
      columnsNumber := |newSchema.names|;
      schemaStart := pos;
      WriteEntries(newSchema);
      schemaWritten := true;
      schema := newSchema;
      return true;
    }

    method AppendFooter(f: Footer)
      requires pos == |file|
      modifies `file, `pos
      ensures pos == |file| && file == old(file) + FooterBytes(f)
    {
      FooterConcat(file, f);
      Append(ToBytes(f.rows, SIZE_BYTES));
      Append(ToBytes(f.columns, SIZE_BYTES));
      Append(ToBytes(f.batches, SIZE_BYTES));
      Append(ToBytes(f.flags, SIZE_BYTES));
      Append(ToBytes(f.schemaOffset, SIZE_BYTES));
    }

    // False is the exception for a footer without a schema.
    method WriteFooter() returns (ok: bool)
      requires Valid()
      modifies `file, `pos
      ensures Valid() && ok == old(schemaWritten)
      ensures ok ==> file == old(file) + FooterBytes(Footer(
                TotalRows(batches), |schema.names|, |batches|, codec.flags,
                |old(file)| - |BatchesBytes(batches)| + FOOTER_BYTES))
      ensures !ok ==> file == old(file)
    {
      hide FooterBytes, BatchesBytes, TotalRows, SchemaBytes;
      if !schemaWritten {
        return false;
      }
      var schemaOffset := pos - schemaStart + 5 * SIZE_BYTES;
      AppendFooter(Footer(rowsNumber, columnsNumber, batchesNumber, codec.flags, schemaOffset));
      return true;
    }
  }
}
