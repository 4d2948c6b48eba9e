# png-fixer in Dafny

A model of the core of png-fixer, a small PNG integrity checker written in
Go. The model covers three things:

- how the checker decodes a file: `Read` collects the leading bytes up to
  the second line feed as the header, then decodes frames of big-endian
  int32 length, four-byte type, data and big-endian uint32 CRC until the
  input ends cleanly, grouping the chunks by type;
- how it classifies the header (`Header.Verify`): not a PNG, DOS-to-Unix
  damage, an invalid length, Unix-to-DOS damage, or good;
- how it checks each chunk (`Chunk.Verify`) and how `main` walks the groups,
  skipping everything from the first IEND chunk of a group onwards.

`png.go` and `main.go` hold the same code; `main.go` adds `main`. The rows
below cite whichever copy the property was read from.

The input is an in-memory byte sequence, so every read sees all remaining
bytes:

- A four-byte `binary.Read` returns a full word, or `io.EOF` when nothing
  is left, or `io.ErrUnexpectedEOF` when one to three bytes are left.
- A `bufio.Reader.Read` of k bytes delivers min(k, remaining) bytes into a
  zeroed buffer. It fails only when it asks for bytes and none are left.

The two Go panics `Read` and `Header.Verify` can hit are error values:

- `make` with a negative length gives `NegativeLengthPanic`.
- An index past the end of the header gives `IndexPanic`.

CRC-32 is the reflected polynomial 0xEDB88320 with initial value and final
xor 0xFFFFFFFF (section 5.5 and Annex D of the PNG Specification, W3C
Second Edition). It is defined bit by bit, and its check value is proved.

Modules, one per file:

- `Errors` (errors.dfy): the error values, `Result` and `Option`.
- `Bytes` (bytes.dfy): bytes, line-feed counting, and the big-endian
  integer codecs.
- `Crc32` (crc32.dfy): the checksum.
- `Stream` (stream.dfy): the two kinds of read.
- `Chunks` (chunk.dfy): `Chunk` and `Chunk.Verify`.
- `Headers` (header.dfy): header collection, `Header.Verify`, and the two
  newline transcodings whose damage it names.
- `Decoder` (decoder.dfy): `Read`, plus an encoder that writes frames, used
  to state what `Read` recovers.
- `ReadShape` (readshape.dfy): the converse of what `Decoder` proves about
  `Read`, namely what every input it accepts looks like.
- `Driver` (driver.dfy): the body of `main`.

Behaviour of the code worth noting:

- A stream that ends right after a frame's length field is an error, not a
  clean end, because reading the type hits end of input.
- A data field has no error of its own for being short. When the declared
  length is above zero and no bytes remain, the data read itself fails
  with end of input. When only part of the field is present, the buffer is
  zero-padded, and the CRC read that follows reports end of input.
- Only 0x0A counts as a line feed when collecting the header.
- The not-a-PNG test slices three bytes, 1..3.
- Any error discards all chunks decoded so far.
- The CRC covers the data only. Section 5.3 of the PNG Specification says it
  covers type and data, so a conforming IEND chunk is reported as a
  mismatch (`Chunks.StandardIendIsMismatch`).

The two newline transcodings `Headers.DosToUnix` (every CR LF becomes LF)
and `Headers.UnixToDos` (every LF becomes CR LF) are not part of the
program. They model the text-mode transfer that damages a file before the
checker sees it, and serve to state which verdict each kind of damage
receives.

## Model

| member | source | states |
|---|---|---|
| Bytes.CountLF | png.go:83-94 | the `lfDetection` counter: never more than the bytes counted, and zero exactly when no byte is 0x0A; additive over concatenation (`Bytes.CountLFConcat`) |
| Bytes.Zeros | png.go:126 | a fresh `make([]byte, n)` is n zero bytes |
| Bytes.DecodeInt32 | png.go:104-108 | the big-endian int32 of four bytes is negative exactly when the top bit of the first byte is set |
| Bytes.Int32RoundTrip | png.go:104-108 | decoding the big-endian two's-complement encoding of any int32 gives it back |
| Bytes.Int32BytesRoundTrip | png.go:104-108 | every four bytes are the encoding of the int32 they decode to, so the length field is decoded without loss |
| Bytes.DecodeUint32 | png.go:134 | the big-endian uint32 of four bytes, from which the bytes are recovered by encoding it, so distinct CRC fields decode to distinct values; the other direction is `Bytes.Uint32RoundTrip` |
| Bytes.Uint32RoundTrip | png.go:134 | decoding the big-endian encoding of any uint32 gives it back |
| Bytes.Uint32BytesRoundTrip | png.go:134 | every four bytes are the encoding of the uint32 they decode to, so the CRC field is decoded without loss |
| Crc32.Checksum | png.go:40 | `crc32.ChecksumIEEE`, pinned to CRC-32/IEEE by `Crc32.CheckValue`, `Crc32.EmptyChecksum` and `Crc32.IendChecksum`, and shown to catch every single-byte change by `Crc32.SingleByteChangeDetected` |
| Crc32.CheckValue | png.go:40 | the checksum of "123456789" is 0xCBF43926, the CRC-32/IEEE check value |
| Crc32.EmptyChecksum | png.go:40 | the checksum of no bytes is 0 |
| Crc32.IendChecksum | png.go:40 | the checksum of the four bytes "IEND" is 0xAE426082 |
| Crc32.RegisterConcat | png.go:40 | the checksum register runs over a concatenation as over its two parts in turn |
| Crc32.SingleByteChangeDetected | png.go:40-43 | changing any one byte of the data changes its checksum |
| Stream.ReadWord | png.go:108-116 | a four-byte read succeeds exactly when four bytes remain, returning them and the rest; it fails with EOF on empty input and with UnexpectedEOF when one to three bytes remain |
| Stream.ReadInto | png.go:118-132 | a k-byte buffered read fails (EOF) exactly when k > 0 and no input remains; otherwise it returns a k-byte buffer holding the available bytes then zeros, and the bytes not consumed |
| Stream.ReadWordOf | png.go:108-116 | a word followed by anything reads back as that word and that remainder |
| Stream.ReadIntoOf | png.go:118-132 | a buffer's worth of bytes followed by anything fills the buffer exactly, with no padding |
| Chunks.VerifyChunk | png.go:33-46 | no error exactly when the declared length is the data length and the stored CRC is the data's CRC; a length mismatch gives (0, MissingBytes) whatever the CRC; a CRC mismatch gives the computed CRC, which differs from the stored one; success returns 0 |
| Chunks.VerifyIgnoresType | png.go:33-46 | the verdict does not depend on the chunk's type |
| Chunks.ConsistentChunkPasses | png.go:35-45 | a chunk whose length and CRC were computed from its data passes with (0, no error) |
| Chunks.CorruptedByteDetected | png.go:40-43 | corrupting one data byte of a passing chunk gives CRCMismatch with the new data's CRC, which differs from the stored CRC |
| Chunks.StandardIendIsMismatch | png.go:40-43 | an IEND chunk whose CRC covers its type, as the PNG standard prescribes, is reported as a CRC mismatch |
| Headers.VerifyHeader | png.go:52-69 | NotPNG exactly when byte 0 is not 0x89 and bytes 1..3 are not "PNG"; an index panic exactly when the header is empty or, failing that test, shorter than 6 bytes; for 6 or 7 bytes DOSToUnix when byte 5 is not 0x0D, else InvalidHeaderLength; from 8 bytes on good exactly when byte 7 is 0x0A, else UnixToDOS |
| Headers.Foreign | png.go:53 | the `&&` not-a-PNG test: a header is rejected only when byte 0 is wrong and bytes 1..3 are not "PNG" as well; `Headers.DamagedMagicAccepted` and `Headers.IntactSignature` show the two sides |
| Headers.VerifyHeaderReadsFewBytes | png.go:53-68 | two headers of 6 or more bytes that agree on the length class (under 8 or not) and on bytes 0..3, 5 and 7 get the same verdict |
| Headers.DamagedMagicAccepted | png.go:53-55 | a signature with a wrong byte 0 but "PNG" in bytes 1..3 passes |
| Headers.CollectHeader | png.go:86-100 | collecting succeeds exactly when the bytes taken and the input hold two line feeds between them; it fails with EOF otherwise; the header then ends in a line feed, holds exactly two, and with the rest makes up the input |
| Headers.CollectFromStart | png.go:86-100 | from the start of the input the header is a non-empty prefix ending at the second line feed; fewer than two line feeds give EOF |
| Headers.CollectStopsAfterSecondLF | png.go:92-99 | collection stops at the byte that brings the count to two, whatever follows |
| Headers.CollectHeaderOf | png.go:86-100 | a prefix holding exactly two line feeds, the last at its end, is collected as the header, whatever follows it |
| Headers.IntactSignature | png.go:86-100 | the 8-byte PNG signature is collected as exactly those 8 bytes, whatever follows, and passes `Header.Verify` |
| Headers.DosToUnixDiagnosed | png.go:92-99 | after a DOS-to-Unix pass the signature becomes 89 50 4E 47 0A 1A 0A: 7 bytes are collected and the verdict is DOSToUnix |
| Headers.UnixToDosDiagnosed | png.go:64-66 | after a Unix-to-DOS pass the signature becomes 89 50 4E 47 0D 0D 0A 1A 0D 0A: 10 bytes are collected, byte 7 is 0x1A, and the verdict is UnixToDOS |
| Headers.DosToUnixKeepsLF | png.go:92-99 | the DOS-to-Unix pass keeps the number of line feeds, so damaged input still ends its header at the second one |
| Headers.UnixToDosKeepsLF | png.go:92-99 | the Unix-to-DOS pass keeps the number of line feeds |
| Decoder.ReadFrame | png.go:103-145 | one pass of the frame loop ends cleanly exactly on empty input; one to three bytes give UnexpectedEOF; a decoded chunk has a four-byte type and as many data bytes as its length says, and input is consumed |
| Decoder.ReadFrameExact | png.go:108-138 | a frame that decodes was read in full: the input is the frame of the decoded chunk followed by what is left, and the chunk's length is the first input word |
| Decoder.ReadFrameOfEncoding | png.go:108-145 | the frame of a well-formed chunk decodes to that chunk, leaving exactly what follows |
| Decoder.ReadFrameOfTruncation | png.go:108-138 | a frame cut after its first byte and before its last fails to decode |
| Decoder.Append | png.go:147-153 | the grouping step: the keys become the old keys plus the chunk's type, the chunk's group gains it at the end (a fresh group when the type is new), and every other group is unchanged |
| Decoder.Group | png.go:101-154 | grouping a run of chunks in file order only appends to groups, and its keys are the old keys and the types that occur; `Decoder.GroupLookup` gives each group's contents |
| Decoder.AppendLookup | png.go:147-153 | the grouping step adds the chunk's type as a key, appends the chunk to its own group, and leaves every other group unchanged |
| Decoder.AppendGrouped | png.go:147-153 | the grouping step keeps every group non-empty and of one type, and only appends |
| Decoder.ReadChunks | png.go:101-154 | one to three bytes left at a frame boundary fail with UnexpectedEOF |
| Decoder.Read | png.go:77-161 | input with fewer than two line feeds fails with EOF; on success the header is a prefix of the input ending in its second line feed, and every group is non-empty, well-formed and of its key's type |
| Decoder.DecodedChunksHaveTheirBytes | png.go:126-145 | no decoded chunk is reported as missing bytes, because its data buffer is sized from its length |
| Decoder.Frames | png.go:101-154 | the chunks the frame loop meets, in file order: on success the input is exactly their frames and every chunk is well formed |
| Decoder.FramesOfEncoding | png.go:101-154 | the frames of well-formed chunks decode to exactly those chunks |
| Decoder.FramesInverse | png.go:101-154 | input decodes to the chunks `cs` exactly when the chunks are well formed and the input is their frames |
| Decoder.FramesSkip | png.go:101-154 | decoding the frames of `cs` followed by more input gives `cs` in front of whatever that input decodes to |
| Decoder.GroupLookup | png.go:147-153 | after grouping a run of chunks, each type's group is its old group followed by that type's chunks in file order; a type is a key exactly when it was one or occurs |
| Decoder.GroupPreserves | png.go:147-153 | grouping well-formed chunks keeps the map grouped and only appends |
| Decoder.ReadChunksGroupsFrames | png.go:101-154 | the frame loop fails exactly when the frames fail to decode, and otherwise is the grouping of the chunks in file order |
| Decoder.FlattenGroup | png.go:147-153 | visiting distinct types, grouping neither loses nor invents chunks: the groups gain exactly the new chunks of the visited types, as a multiset |
| Decoder.ReadOfEncoding | png.go:77-161 | a header and well-formed frames read back as that header and those chunks grouped by type, each group in file order |
| ReadShape.ReadSuccessShape | png.go:77-161 | the converse of `Decoder.ReadOfEncoding`: every input `Read` accepts is its header followed by the frames of some well-formed chunks, and the map holds exactly those chunks grouped by type |
| Decoder.ReadKeepsEveryChunk | png.go:140-153 | on well-formed frames, visiting every key once in any order meets each chunk of the file exactly once, so the groups hold as many chunks as there are frames |
| Decoder.ReadOfTruncation | png.go:108-138 | a file cut inside a frame fails to read, with no partial result |
| Decoder.ReadOfTrailingBytes | png.go:108-116 | one to three bytes after the last frame are an UnexpectedEOF error, not a clean end |
| Driver.UntilEnd | main.go:190-193 | the chunks of a group the inner loop verifies are the longest prefix of the group with no IEND chunk; the next chunk, if any, is IEND |
| Driver.Visited | main.go:189-202 | no chunk the loop verifies is an IEND chunk |
| Driver.VerifyGroup | main.go:190-201 | the inner loop with its `break` reports on exactly the chunks before the group's first IEND, in order |
| Driver.VerifyAll | main.go:189-202 | the nested loop reports on exactly the chunks of `Visited`, in order, each with its `Chunk.Verify` result |
| Driver.Inspect | main.go:177-202 | a `Read` error aborts the run with that error; a header panic aborts it; any other header verdict, good or bad, is kept and the chunks are verified all the same |
| Driver.VisitedSkipsOnlyEnd | main.go:189-194 | in a grouped map the `break` fires only in the IEND group, at its first chunk: every other group is verified in full |
| Driver.EveryChunkButEndVerifiedOnce | main.go:189-194 | on a file of well-formed frames, whatever order the map yields its groups in, every chunk other than IEND is verified exactly once and no IEND chunk is verified |

## Left out

- Reading the file (`ioutil.ReadFile`), `log` output and `log.Fatalln`: these are I/O. `Driver.Inspect` returns what would be logged, as a `Run`.
- The unused `flag` variables of `main.go`: command-line plumbing.
- Short reads at the 4096-byte boundary of the `bufio` buffer: the reads are idealised to deliver everything available. A short read there can desynchronise the frame loop in Go.
- Go's map iteration order: `main` walks the map in an unspecified order. The order is a parameter of `Driver.VerifyAll` and `Driver.Inspect`, and the counting property holds for every order.
- The table-driven implementation inside Go's `hash/crc32`: the checksum is defined bit by bit from the standard's polynomial.
- Read errors other than end of input: the input is an in-memory sequence.
- Headers.VerifyHeader: Go slices bytes 1..3 up to the slice's capacity. For a header shorter than 4 bytes, the model reads the spare bytes as zeros. That is what happens to a header `Read` collected, since `append` grows it to capacity 8 with zeroed spare bytes. A hand-built header with a smaller capacity would panic there instead; that case is not modelled.
