/** One PNG chunk and `Chunk.Verify`, the per-chunk integrity check. */
module Chunks {
  import opened Bytes
  import opened Errors
  import Crc32

  /** The four-byte type code of a chunk, such as "IHDR" or "IEND". Go keeps
      it as a `string`, which is a byte sequence. */
  type Tag = seq<byte>

  const IEND: Tag := [0x49, 0x45, 0x4E, 0x44]

  /** A chunk as `Read` builds it: the declared length, the type, the data
      and the stored CRC. Nothing ties the fields together; `VerifyChunk`
      is what checks them. */
  datatype Chunk = Chunk(length: Int32, chunkType: Tag, data: seq<byte>, crc: bv32)

  /** `Chunk.Verify`: the computed CRC (zero unless it disagrees with the
      stored one) and the error. The CRC covers the data only, not the type
      code in front of it. */
  function VerifyChunk(c: Chunk): (r: (bv32, Option<Error>))
    ensures r.1 == None <==> c.length == |c.data| && c.crc == Crc32.Checksum(c.data)
    ensures c.length != |c.data| ==> r == (0, Some(MissingBytes))
    ensures c.length == |c.data| && c.crc != Crc32.Checksum(c.data) ==>
              r == (Crc32.Checksum(c.data), Some(CRCMismatch)) && r.0 != c.crc
    ensures r.1 == None ==> r.0 == 0
  {
    if c.length != |c.data| then (0, Some(MissingBytes))
    else
      var dataCrc := Crc32.Checksum(c.data);
      if dataCrc != c.crc then (dataCrc, Some(CRCMismatch))
      else (0, None)
  }

  /** The type code takes no part in verification. */
  lemma VerifyIgnoresType(c: Chunk, t: Tag)
    ensures VerifyChunk(c.(chunkType := t)) == VerifyChunk(c)
  {}

  /** A chunk whose length and CRC were written from its data passes. */
  lemma ConsistentChunkPasses(t: Tag, data: seq<byte>)
    requires |data| < 0x8000_0000
    ensures VerifyChunk(Chunk(|data|, t, data, Crc32.Checksum(data))) == (0, None)
  {}

  /** Corrupting any one data byte of a chunk that passed is reported as a
      CRC mismatch, and the CRC reported differs from the stored one. */
  lemma CorruptedByteDetected(c: Chunk, i: nat, b: byte)
    requires VerifyChunk(c).1 == None
    requires i < |c.data| && c.data[i] != b
    ensures VerifyChunk(c.(data := c.data[i := b])) ==
              (Crc32.Checksum(c.data[i := b]), Some(CRCMismatch))
    ensures Crc32.Checksum(c.data[i := b]) != c.crc
  {
    Crc32.SingleByteChangeDetected(c.data, i, b);
  }

  /** The final chunk of a conforming PNG file (no data, CRC taken over the
      type code as the standard prescribes) is reported as a CRC mismatch,
      because the data-only CRC of no bytes is zero. */
  lemma StandardIendIsMismatch()
    ensures VerifyChunk(Chunk(0, IEND, [], Crc32.Checksum(IEND + []))) == (0, Some(CRCMismatch))
  {
    assert IEND + [] == IEND;
    Crc32.IendChecksum();
    Crc32.EmptyChecksum();
  }
}
