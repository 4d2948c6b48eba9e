/** What a successful `Read` says about its input: the converse of
    `Decoder.ReadOfEncoding`. */
module ReadShape {
  import opened Bytes
  import opened Errors
  import opened Chunks
  import opened Headers
  import opened Decoder

  /** Every input `Read` accepts is a header followed by the frames of
      well-formed chunks, and the map is those chunks grouped. */
  lemma ReadSuccessShape(input: seq<byte>)
    requires Read(input).Success?
    ensures exists cs: seq<Chunk> ::
              && AllWellFormed(cs)
              && input == Read(input).value.header.bytes + EncodeChunks(cs)
              && Read(input).value.chunks == Group(map[], cs)
  {
    CollectFromStart(input);
    var (h, rest) := CollectHeader([], input).value;
    ReadChunksGroupsFrames(rest, map[]);
    var cs := Frames(rest).value;
    assert input == h + EncodeChunks(cs);
  }
}
