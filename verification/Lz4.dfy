/** The LZ4 step around the library's block functions: two 32-bit sizes, then the block. */
module Lz4 {
  import opened Words

  // sizeof(int).
  const INT_BYTES: nat := 4
  const INT_LIMIT: nat := 0x8000_0000
  const UINT_LIMIT: nat := 0x1_0000_0000
  // The longest input for which LZ4_compressBound is not 0.
  const MAX_INPUT: nat := 0x7E00_0000

  // LZ4_compress_default into a buffer of LZ4_compressBound bytes, and LZ4_decompress_safe into a buffer of so many
  // bytes; None where it does not fill the buffer.
  datatype Library = Library(compress: Bytes -> Bytes, decompress: (Bytes, nat) -> Option<Bytes>)

  // What its documentation promises: inputs up to the limit compress, and decompress to themselves.
  ghost predicate Sound(library: Library) {
    forall block: Bytes :: |block| <= MAX_INPUT ==>
      && 0 < |library.compress(block)| < INT_LIMIT
      && library.decompress(library.compress(block), |block|) == Some(block)
  }

  // Such a library can be had: one that appends a byte.
  lemma SomeLibraryIsSound() returns (library: Library)
    ensures Sound(library)
  {
    library := Library(
      (block: Bytes) => block + [0],
      (block: Bytes, size: nat) => if |block| == size + 1 then Some(block[..size]) else None);
    forall block: Bytes | |block| <= MAX_INPUT
      ensures library.decompress(library.compress(block), |block|) == Some(block)
    {
      assert (block + [0])[..|block|] == block;
    }
  }

  // static_cast<int>(size).
  function ToInt(size: nat): (n: int)
    ensures n <= size
  {
    var low := size % UINT_LIMIT;
    if low < INT_LIMIT then low else low - UINT_LIMIT
  }

  // The input whose size is the truncated one is compressed; None is the exception.
  function Compressed(library: Library, input: Bytes): Option<Bytes> {
    var size := ToInt(|input|);
    if 0 <= size <= MAX_INPUT then
      var block := library.compress(input[..size]);
      if |block| == 0 then None else Some(ToBytes(size, INT_BYTES) + ToBytes(|block|, INT_BYTES) + block)
    else None
  }

  // None is the exception, or a read past the end of the buffer.
  function Decompressed(library: Library, bs: Bytes): Option<Bytes> {
    if |bs| < 2 * INT_BYTES then None
    else
      var size, blockSize := ToInt(FromBytes(bs[..INT_BYTES])), ToInt(FromBytes(bs[INT_BYTES..2 * INT_BYTES]));
      if size < 0 || blockSize < 0 || 2 * INT_BYTES + blockSize > |bs| then None
      else
        var block := bs[2 * INT_BYTES..2 * INT_BYTES + blockSize];
        match library.decompress(block, size)
        case None => None
        case Some(output) => if |output| == size then Some(output) else None
  }

  method Lz4Compress(library: Library, input: Bytes) returns (output: Option<Bytes>)
    ensures output == Compressed(library, input)
  {
    var uncompressedSize := ToInt(|input|);
    if uncompressedSize < 0 || uncompressedSize > MAX_INPUT {
      return None;
    }
    var block := library.compress(input[..uncompressedSize]);
    if |block| == 0 {
      return None;
    }
    var bytes := ToBytes(uncompressedSize, INT_BYTES);
    bytes := bytes + ToBytes(|block|, INT_BYTES);
    bytes := bytes + block;
    return Some(bytes);
  }

  method Lz4Decompress(library: Library, input: Bytes) returns (output: Option<Bytes>)
    ensures output == Decompressed(library, input)
  {
    if |input| < 2 * INT_BYTES {
      return None;
    }
    var uncompressedSize := ToInt(FromBytes(input[..INT_BYTES]));
    var compressedSize := ToInt(FromBytes(input[INT_BYTES..2 * INT_BYTES]));
    if uncompressedSize < 0 || compressedSize < 0 || 2 * INT_BYTES + compressedSize > |input| {
      return None;
    }
    output := library.decompress(input[2 * INT_BYTES..2 * INT_BYTES + compressedSize], uncompressedSize);
    if output.Some? && |output.value| != uncompressedSize {
      output := None;
    }
  }

  // The size of the input, the size of the block, the block.
  lemma CompressedLayout(library: Library, input: Bytes)
    requires Compressed(library, input).Some?
    ensures var output, size := Compressed(library, input).value, |input| % 0x1_0000_0000;
      && |output| >= 8 && output[..4] == ToBytes(size, 4)
      && output[4..8] == ToBytes(|output| - 8, 4) && output[8..] == library.compress(input[..size])
  {
    hide ToBytes;
  }

  lemma IntRoundTrip(n: nat)
    requires n < INT_LIMIT
    ensures ToInt(FromBytes(ToBytes(n, INT_BYTES))) == n
  {
    Pow2Literals();
    FromToBytes(n, INT_BYTES);
  }

  lemma StoredBlock(library: Library, size: nat, block: Bytes)
    requires size < INT_LIMIT && |block| < INT_LIMIT
    ensures var bs := ToBytes(size, INT_BYTES) + ToBytes(|block|, INT_BYTES) + block;
      Decompressed(library, bs) == match library.decompress(block, size)
                                   case None => None
                                   case Some(output) => if |output| == size then Some(output) else None
  {
    hide ToBytes, FromBytes;
    IntRoundTrip(size);
    IntRoundTrip(|block|);
    var a, b := ToBytes(size, INT_BYTES), ToBytes(|block|, INT_BYTES);
    var bs := a + b + block;
    assert bs[..INT_BYTES] == a && bs[INT_BYTES..2 * INT_BYTES] == b && bs[2 * INT_BYTES..] == block;
    assert bs[2 * INT_BYTES..2 * INT_BYTES + |block|] == block;
  }

  // What was compressed without exception decompresses to as many of the first bytes as the 32-bit size says.
  lemma CompressedComesBack(library: Library, input: Bytes)
    requires Sound(library)
    ensures Compressed(library, input).Some? <==> |input| % 0x1_0000_0000 <= 0x7E00_0000
    ensures Compressed(library, input).Some? ==>
      Decompressed(library, Compressed(library, input).value) == Some(input[..|input| % 0x1_0000_0000])
  {
    hide Decompressed, ToBytes;
    var size := ToInt(|input|);
    if 0 <= size <= MAX_INPUT {
      var block := library.compress(input[..size]);
      assert |input[..size]| <= MAX_INPUT;
      StoredBlock(library, size, block);
    }
  }

  // An input comes back whole if and only if it is not longer than the library's limit; longer ones throw, or keep
  // only as many bytes as their size modulo 2^32 says.
  lemma Lz4RoundTrip(library: Library, input: Bytes)
    requires Sound(library)
    ensures |input| <= MAX_INPUT
       <==> Compressed(library, input).Some?
            && Decompressed(library, Compressed(library, input).value) == Some(input)
  {
    hide Compressed, Decompressed;
    CompressedComesBack(library, input);
    if |input| <= MAX_INPUT {
      assert input[..|input|] == input;
    } else if ToInt(|input|) >= 0 && ToInt(|input|) <= MAX_INPUT {
      assert |input[..ToInt(|input|)]| < |input|;
    }
  }

  // Five bytes past 4 GiB: only the first five come back, without an exception.
  lemma LongInputIsCut(library: Library, input: Bytes)
    requires Sound(library) && |input| == UINT_LIMIT + 5
    ensures Compressed(library, input).Some?
    ensures Decompressed(library, Compressed(library, input).value) == Some(input[..5])
  {
    hide Compressed, Decompressed;
    CompressedComesBack(library, input);
  }
}
