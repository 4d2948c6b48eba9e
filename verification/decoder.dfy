/** `Read`: collect the header, then decode frames (length, type, data, CRC)
    until the input ends cleanly at a frame boundary, grouping the chunks by
    type. Also the encoder that writes such frames, used to state what
    `Read` recovers. */
module Decoder {
  import opened Bytes
  import opened Errors
  import opened Stream
  import opened Chunks
  import opened Headers

  /** Chunks grouped by type code, each group in file order. */
  type ChunkMap = map<Tag, seq<Chunk>>

  /** `PNG`: the header and the grouped chunks. */
  datatype Png = Png(header: Header, chunks: ChunkMap)

  /** A chunk whose fields could have come out of one frame: a four-byte type
      and exactly `length` data bytes. */
  predicate WellFormed(c: Chunk) {
    |c.chunkType| == 4 && c.length == |c.data|
  }

  predicate AllWellFormed(cs: seq<Chunk>) {
    forall i | 0 <= i < |cs| :: WellFormed(cs[i])
  }

  // ---------------------------------------------------------------------
  // Writing frames

  /** The frame of a chunk: big-endian int32 length, type, data, big-endian CRC. */
  function EncodeChunk(c: Chunk): (b: seq<byte>)
    ensures WellFormed(c) ==> |b| == 12 + c.length
  {
    EncodeInt32(c.length) + c.chunkType + c.data + EncodeUint32(c.crc)
  }

  function EncodeChunks(cs: seq<Chunk>): seq<byte>
    decreases |cs|
  {
    if cs == [] then [] else EncodeChunk(cs[0]) + EncodeChunks(cs[1..])
  }

  // ---------------------------------------------------------------------
  // Reading one frame

  /** What one pass of the frame loop produced: the clean end of input, or a
      chunk and the input left after its frame. */
  datatype Step = End | Framed(chunk: Chunk, rest: seq<byte>)

  /** One pass of `Read`'s frame loop on the input `s` not yet consumed: the
      length (a clean `io.EOF` here ends the loop), the type, the data into a
      buffer of the declared length (`make` panics on a negative length),
      then the CRC. */
  function ReadFrame(s: seq<byte>): (r: Result<Step>)
    ensures r == Success(End) <==> s == []
    ensures 0 < |s| < 4 ==> r == Failure(UnexpectedEOF)
    ensures r.Success? && r.value.Framed? ==>
              |r.value.rest| < |s| && WellFormed(r.value.chunk)
  {
    var length := ReadWord(s);
    if length.Failure? then
      if length.error == EOF then Success(End) else Failure(length.error)
    else
      var n := DecodeInt32(length.value.0);
      var chunkType := ReadInto(length.value.1, 4);
      if chunkType.Failure? then Failure(chunkType.error)
      else if n < 0 then Failure(NegativeLengthPanic)
      else
        var data := ReadInto(chunkType.value.1, n);
        if data.Failure? then Failure(data.error)
        else
          var crc := ReadWord(data.value.1);
          if crc.Failure? then Failure(crc.error)
          else Success(Framed(Chunk(n, chunkType.value.0, data.value.0, DecodeUint32(crc.value.0)), crc.value.1))
  }

  /** A frame that decodes was read in full: the input is the encoding of
      the chunk it produced followed by what is left, and the chunk's length
      is the first word of the input. */
  lemma ReadFrameExact(s: seq<byte>)
    ensures ReadFrame(s).Success? && ReadFrame(s).value.Framed? ==>
              && s == EncodeChunk(ReadFrame(s).value.chunk) + ReadFrame(s).value.rest
              && ReadFrame(s).value.chunk.length == DecodeInt32(s[..4])
  {
    if ReadFrame(s).Success? && ReadFrame(s).value.Framed? {
      var (lengthBytes, s1) := ReadWord(s).value;
      var n := DecodeInt32(lengthBytes);
      var (chunkType, s2) := ReadInto(s1, 4).value;
      var (data, s3) := ReadInto(s2, n).value;
      var (crcBytes, s4) := ReadWord(s3).value;
      Int32BytesRoundTrip(lengthBytes);
      Uint32BytesRoundTrip(crcBytes);
      Concat4(lengthBytes, chunkType, data, crcBytes, s4);
    }
  }

  /** Regrouping a frame's four fields and what follows it. */
  lemma Concat4(a: seq<byte>, b: seq<byte>, c: seq<byte>, d: seq<byte>, e: seq<byte>)
    ensures a + (b + (c + (d + e))) == a + b + c + d + e
  {}

  /** The frame of a well-formed chunk decodes to that chunk, whatever follows. */
  lemma ReadFrameOfEncoding(c: Chunk, rest: seq<byte>)
    requires WellFormed(c)
    ensures ReadFrame(EncodeChunk(c) + rest) == Success(Framed(c, rest))
  {
    var lengthBytes := EncodeInt32(c.length);
    var crcBytes := EncodeUint32(c.crc);
    Concat4(lengthBytes, c.chunkType, c.data, crcBytes, rest);
    Int32RoundTrip(c.length);
    Uint32RoundTrip(c.crc);
    ReadWordOf(lengthBytes, c.chunkType + (c.data + (crcBytes + rest)));
    ReadIntoOf(c.chunkType, c.data + (crcBytes + rest));
    ReadIntoOf(c.data, crcBytes + rest);
    ReadWordOf(crcBytes, rest);
  }

  /** A frame cut short, after its first byte and before its last, fails to
      decode: there is no partial chunk. */
  lemma ReadFrameOfTruncation(c: Chunk, k: nat)
    requires WellFormed(c) && 0 < k < |EncodeChunk(c)|
    ensures ReadFrame(EncodeChunk(c)[..k]).Failure?
  {
    var s := EncodeChunk(c)[..k];
    if k >= 4 {
      ReadFrameExact(s);
      assert s[..4] == EncodeInt32(c.length);
      Int32RoundTrip(c.length);
    }
  }

  // ---------------------------------------------------------------------
  // Grouping

  function Lookup(m: ChunkMap, t: Tag): seq<Chunk> {
    if t in m then m[t] else []
  }

  /** The grouping step of the frame loop: create the group on first sight
      of a type, then append the chunk to it. */
  function Append(m: ChunkMap, c: Chunk): (r: ChunkMap)
    ensures r.Keys == m.Keys + {c.chunkType}
    ensures r[c.chunkType] == Lookup(m, c.chunkType) + [c]
    ensures forall t | t in m && t != c.chunkType :: r[t] == m[t]
  {
    m[c.chunkType := Lookup(m, c.chunkType) + [c]]
  }

  /** Appending adds the chunk's type as a key and the chunk at the end of
      its own group; every other group is untouched. */
  lemma AppendLookup(m: ChunkMap, c: Chunk, t: Tag)
    ensures t in Append(m, c) <==> t in m || t == c.chunkType
    ensures t != c.chunkType ==> Lookup(Append(m, c), t) == Lookup(m, t)
    ensures t == c.chunkType ==> Lookup(Append(m, c), t) == Lookup(m, t) + [c]
  {}

  /** A group of type `t`: non-empty, and well-formed chunks of type `t` only. */
  predicate GroupOf(t: Tag, cs: seq<Chunk>) {
    |cs| > 0 && forall i | 0 <= i < |cs| :: cs[i].chunkType == t && WellFormed(cs[i])
  }

  /** Every group is non-empty, and holds well-formed chunks of its own type. */
  predicate Grouped(m: ChunkMap) {
    forall t | t in m :: GroupOf(t, m[t])
  }

  /** `m` grows into `m'` only by appending to groups. */
  predicate Extends(m: ChunkMap, m': ChunkMap) {
    forall t | t in m :: t in m' && m[t] <= m'[t]
  }

  /** One grouping step keeps a map grouped and only appends. */
  lemma AppendGrouped(m: ChunkMap, c: Chunk)
    requires Grouped(m) && WellFormed(c)
    ensures Grouped(Append(m, c)) && Extends(m, Append(m, c))
  {
    var m' := Append(m, c);
    forall t | t in m'
      ensures GroupOf(t, m'[t])
    {
      AppendLookup(m, c, t);
      if t in m {
        assert GroupOf(t, m[t]);
      }
    }
    forall t | t in m
      ensures t in m' && m[t] <= m'[t]
    {
      AppendLookup(m, c, t);
    }
  }

  /** The chunks of type `t`, in order. */
  function OfType(cs: seq<Chunk>, t: Tag): seq<Chunk>
    decreases |cs|
  {
    if cs == [] then []
    else (if cs[0].chunkType == t then [cs[0]] else []) + OfType(cs[1..], t)
  }

  /** The chunks not of type `t`, in order. */
  function NotOfType(cs: seq<Chunk>, t: Tag): seq<Chunk>
    decreases |cs|
  {
    if cs == [] then []
    else (if cs[0].chunkType != t then [cs[0]] else []) + NotOfType(cs[1..], t)
  }

  /** The frame loop's grouping applied to a whole sequence of chunks: it
      only appends to groups, and its keys are the old ones and the types
      that occur. */
  function Group(m: ChunkMap, cs: seq<Chunk>): (r: ChunkMap)
    ensures Extends(m, r)
    ensures r.Keys == m.Keys + set i | 0 <= i < |cs| :: cs[i].chunkType
    decreases |cs|
  {
    if cs == [] then m
    else
      var m' := Append(m, cs[0]);
      var tail := cs[1..];
      assert (set i | 0 <= i < |cs| :: cs[i].chunkType)
          == {cs[0].chunkType} + set i | 0 <= i < |tail| :: tail[i].chunkType;
      Group(m', tail)
  }

  // ---------------------------------------------------------------------
  // The frame loop and Read

  /** The frame loop of `Read` on the input `s` not yet consumed, adding to
      `acc`. Any failure discards everything: the caller gets the error
      alone. */
  function ReadChunks(s: seq<byte>, acc: ChunkMap): (r: Result<ChunkMap>)
    ensures 0 < |s| < 4 ==> r == Failure(UnexpectedEOF)
    decreases |s|
  {
    var step := ReadFrame(s);
    if step.Failure? then Failure(step.error)
    else if step.value.End? then Success(acc)
    else ReadChunks(step.value.rest, Append(acc, step.value.chunk))
  }

  /** `Read`. */
  function Read(input: seq<byte>): (r: Result<Png>)
    ensures CountLF(input) < 2 ==> r == Failure(EOF)
    ensures r.Success? ==>
              var h := r.value.header.bytes;
              && 0 < |h| <= |input| && h == input[..|h|]
              && h[|h| - 1] == LF && CountLF(h) == 2
              && Grouped(r.value.chunks)
  {
    CollectFromStart(input);
    var header := CollectHeader([], input);
    if header.Failure? then Failure(header.error)
    else
      var (h, rest) := header.value;
      ReadChunksGroupsFrames(rest, map[]);
      var chunks := ReadChunks(rest, map[]);
      if chunks.Failure? then Failure(chunks.error)
      else
        GroupPreserves(map[], Frames(rest).value);
        Success(Png(Header(h), chunks.value))
  }

  /** Every decoded chunk carries exactly as many data bytes as its length
      field declares, so `Chunk.Verify` never reports missing bytes for it. */
  lemma DecodedChunksHaveTheirBytes(input: seq<byte>, t: Tag, i: nat)
    requires Read(input).Success?
    requires t in Read(input).value.chunks && i < |Read(input).value.chunks[t]|
    ensures VerifyChunk(Read(input).value.chunks[t][i]).1 != Some(MissingBytes)
  {}

  // ---------------------------------------------------------------------
  // The chunks in file order

  /** `cs` in front of the chunks of a successful decoding; a failure passes
      through. */
  function Prepend(cs: seq<Chunk>, r: Result<seq<Chunk>>): Result<seq<Chunk>> {
    if r.Success? then Success(cs + r.value) else r
  }

  /** The chunks the frame loop meets in `s`, in file order, before any
      grouping; fails exactly when the loop does. */
  function Frames(s: seq<byte>): (r: Result<seq<Chunk>>)
    ensures r.Success? ==> s == EncodeChunks(r.value) && AllWellFormed(r.value)
    decreases |s|
  {
    var step := ReadFrame(s);
    if step.Failure? then Failure(step.error)
    else if step.value.End? then Success([])
    else
      var rest := Frames(step.value.rest);
      if rest.Failure? then Failure(rest.error)
      else
        ReadFrameExact(s);
        EncodeChunksCons(step.value.chunk, rest.value);
        Success([step.value.chunk] + rest.value)
  }

  lemma EncodeChunksCons(c: Chunk, cs: seq<Chunk>)
    ensures EncodeChunks([c] + cs) == EncodeChunk(c) + EncodeChunks(cs)
  {
    assert ([c] + cs)[1..] == cs;
  }

  /** A sequence of well-formed frames decodes back to its chunks. */
  lemma {:induction false} FramesOfEncoding(cs: seq<Chunk>)
    requires AllWellFormed(cs)
    ensures Frames(EncodeChunks(cs)) == Success(cs)
    decreases |cs|
  {
    if cs != [] {
      EncodeChunksCons(cs[0], cs[1..]);
      assert [cs[0]] + cs[1..] == cs;
      ReadFrameOfEncoding(cs[0], EncodeChunks(cs[1..]));
      FramesStep(EncodeChunks(cs));
      FramesOfEncoding(cs[1..]);
    }
  }

  /** Decoding and encoding are inverse: the frame loop succeeds with `cs`
      exactly when the input is the encoding of `cs`. */
  lemma FramesInverse(s: seq<byte>, cs: seq<Chunk>)
    ensures Frames(s) == Success(cs) <==> s == EncodeChunks(cs) && AllWellFormed(cs)
  {
    if s == EncodeChunks(cs) && AllWellFormed(cs) {
      FramesOfEncoding(cs);
    }
  }

  /** One decoded frame puts its chunk in front of the chunks after it. */
  lemma FramesStep(s: seq<byte>)
    requires ReadFrame(s).Success? && ReadFrame(s).value.Framed?
    ensures Frames(s) == Prepend([ReadFrame(s).value.chunk], Frames(ReadFrame(s).value.rest))
  {}

  lemma PrependNil(r: Result<seq<Chunk>>)
    ensures Prepend([], r) == r
  {
    if r.Success? {
      assert [] + r.value == r.value;
    }
  }

  lemma PrependCons(c: Chunk, cs: seq<Chunk>, r: Result<seq<Chunk>>)
    ensures Prepend([c], Prepend(cs, r)) == Prepend([c] + cs, r)
  {
    if r.Success? {
      assert [c] + (cs + r.value) == [c] + cs + r.value;
    }
  }

  /** After well-formed frames, decoding goes on with what follows them. */
  lemma {:induction false} FramesSkip(cs: seq<Chunk>, rest: seq<byte>)
    requires AllWellFormed(cs)
    ensures Frames(EncodeChunks(cs) + rest) == Prepend(cs, Frames(rest))
    decreases |cs|
  {
    if cs == [] {
      assert EncodeChunks(cs) + rest == rest;
      PrependNil(Frames(rest));
    } else {
      var tail := EncodeChunks(cs[1..]) + rest;
      EncodeChunksCons(cs[0], cs[1..]);
      assert [cs[0]] + cs[1..] == cs;
      assert EncodeChunks(cs) + rest == EncodeChunk(cs[0]) + tail;
      ReadFrameOfEncoding(cs[0], tail);
      FramesStep(EncodeChunk(cs[0]) + tail);
      FramesSkip(cs[1..], rest);
      PrependCons(cs[0], cs[1..], Frames(rest));
    }
  }

  // ---------------------------------------------------------------------
  // Grouping, stated against the chunks in file order

  /** Each group is the old group followed by the new chunks of its type, in
      file order; nothing is reordered or merged. */
  lemma {:induction false} GroupLookup(m: ChunkMap, cs: seq<Chunk>, t: Tag)
    ensures Lookup(Group(m, cs), t) == Lookup(m, t) + OfType(cs, t)
    ensures t in Group(m, cs) <==> t in m || OfType(cs, t) != []
    decreases |cs|
  {
    if cs != [] {
      AppendLookup(m, cs[0], t);
      GroupLookup(Append(m, cs[0]), cs[1..], t);
      if cs[0].chunkType == t {
        AppendAssociative(Lookup(m, t), [cs[0]], OfType(cs[1..], t));
      } else {
        assert OfType(cs, t) == OfType(cs[1..], t);
      }
    }
  }

  /** Grouping well-formed chunks keeps a map grouped and only appends. */
  lemma {:induction false} GroupPreserves(m: ChunkMap, cs: seq<Chunk>)
    requires Grouped(m) && AllWellFormed(cs)
    ensures Grouped(Group(m, cs)) && Extends(m, Group(m, cs))
    decreases |cs|
  {
    if cs != [] {
      AppendGrouped(m, cs[0]);
      GroupPreserves(Append(m, cs[0]), cs[1..]);
    }
  }

  /** The frame loop's outcome from the chunks in file order: their
      failure, or their grouping into `acc`. */
  function GroupFrames(acc: ChunkMap, r: Result<seq<Chunk>>): Result<ChunkMap> {
    if r.Success? then Success(Group(acc, r.value)) else Failure(r.error)
  }

  /** The frame loop is the grouping of the chunks in file order: it fails
      when they fail to decode, and otherwise groups them into `acc`. */
  lemma {:induction false} ReadChunksGroupsFrames(s: seq<byte>, acc: ChunkMap)
    ensures ReadChunks(s, acc) == GroupFrames(acc, Frames(s))
    decreases |s|
  {
    var step := ReadFrame(s);
    if step.Success? && step.value.Framed? {
      var c := step.value.chunk;
      FramesStep(s);
      ReadChunksGroupsFrames(step.value.rest, Append(acc, c));
      if Frames(step.value.rest).Success? {
        assert ([c] + Frames(step.value.rest).value)[1..] == Frames(step.value.rest).value;
      }
    }
  }

  /** No two entries of `ts` are the same. */
  predicate Distinct(ts: seq<Tag>) {
    forall i, j | 0 <= i < j < |ts| :: ts[i] != ts[j]
  }

  /** `ts` lists the keys of `m`, each once: one iteration order of a Go map. */
  predicate Enumerates(ts: seq<Tag>, m: ChunkMap) {
    && Distinct(ts)
    && (forall t | t in m :: t in ts)
    && (forall i | 0 <= i < |ts| :: ts[i] in m)
  }

  /** The groups of `m` in the order `ts` visits their types, concatenated. */
  function Flatten(m: ChunkMap, ts: seq<Tag>): seq<Chunk>
    decreases |ts|
  {
    if ts == [] then [] else Flatten(m, ts[..|ts| - 1]) + Lookup(m, ts[|ts| - 1])
  }

  /** The chunks of `cs` whose type is among `ts`, in order. */
  function Among(cs: seq<Chunk>, ts: seq<Tag>): seq<Chunk>
    decreases |cs|
  {
    if cs == [] then []
    else (if cs[0].chunkType in ts then [cs[0]] else []) + Among(cs[1..], ts)
  }

  lemma {:induction false} FlattenUnaffected(m: ChunkMap, c: Chunk, ts: seq<Tag>)
    requires c.chunkType !in ts
    ensures Flatten(Append(m, c), ts) == Flatten(m, ts)
    decreases |ts|
  {
    if ts != [] {
      var init := ts[..|ts| - 1];
      assert forall t | t in init :: t in ts;
      AppendLookup(m, c, ts[|ts| - 1]);
      FlattenUnaffected(m, c, init);
    }
  }

  lemma FlattenAppendLast(m: ChunkMap, c: Chunk, ts: seq<Tag>)
    requires Distinct(ts) && |ts| > 0 && ts[|ts| - 1] == c.chunkType
    ensures Flatten(Append(m, c), ts) == Flatten(m, ts) + [c]
  {
    var init := ts[..|ts| - 1];
    assert c.chunkType !in init;
    FlattenUnaffected(m, c, init);
    AppendLookup(m, c, c.chunkType);
  }

  lemma {:induction false} FlattenAppend(m: ChunkMap, c: Chunk, ts: seq<Tag>)
    requires Distinct(ts) && c.chunkType in ts
    ensures multiset(Flatten(Append(m, c), ts)) == multiset(Flatten(m, ts)) + multiset{c}
    decreases |ts|
  {
    var init := ts[..|ts| - 1];
    var t := ts[|ts| - 1];
    if t == c.chunkType {
      FlattenAppendLast(m, c, ts);
    } else {
      assert ts == init + [t];
      assert Distinct(init) && c.chunkType in init;
      FlattenAppend(m, c, init);
      AppendLookup(m, c, t);
    }
  }

  /** Grouping loses and invents nothing: visiting types once each, in any
      order, meets each chunk of a visited type as often as the file holds
      it. */
  lemma {:induction false} FlattenGroup(m: ChunkMap, cs: seq<Chunk>, ts: seq<Tag>)
    requires Distinct(ts)
    ensures multiset(Flatten(Group(m, cs), ts)) == multiset(Flatten(m, ts)) + multiset(Among(cs, ts))
    decreases |cs|
  {
    if cs != [] {
      var c := cs[0];
      var m' := Append(m, c);
      var head := if c.chunkType in ts then [c] else [];
      if c.chunkType in ts {
        FlattenAppend(m, c, ts);
      } else {
        FlattenUnaffected(m, c, ts);
      }
      assert multiset(Flatten(m', ts)) == multiset(Flatten(m, ts)) + multiset(head);
      FlattenGroup(m', cs[1..], ts);
      assert Among(cs, ts) == head + Among(cs[1..], ts);
    }
  }

  lemma {:induction false} FlattenEmpty(ts: seq<Tag>)
    ensures Flatten(map[], ts) == []
    decreases |ts|
  {
    if ts != [] {
      FlattenEmpty(ts[..|ts| - 1]);
    }
  }

  /** Every chunk's type has a non-empty run of chunks of that type. */
  lemma {:induction false} OfTypeHas(cs: seq<Chunk>, i: nat)
    requires i < |cs|
    ensures OfType(cs, cs[i].chunkType) != []
    decreases |cs|
  {
    if i > 0 {
      assert cs[1..][i - 1] == cs[i];
      OfTypeHas(cs[1..], i - 1);
    }
  }

  lemma {:induction false} AmongAll(cs: seq<Chunk>, ts: seq<Tag>)
    requires forall i | 0 <= i < |cs| :: cs[i].chunkType in ts
    ensures Among(cs, ts) == cs
    decreases |cs|
  {
    if cs != [] {
      var tail := cs[1..];
      assert forall i | 0 <= i < |tail| :: tail[i] == cs[i + 1];
      AmongAll(tail, ts);
      assert cs[0].chunkType in ts;
      assert cs == [cs[0]] + tail;
    }
  }

  // ---------------------------------------------------------------------
  // Read on well-formed and damaged files

  /** A header and well-formed frames read back as that header and the
      chunks grouped by type, each group in file order. */
  lemma ReadOfEncoding(h: seq<byte>, cs: seq<Chunk>)
    requires |h| > 0 && h[|h| - 1] == LF && CountLF(h) == 2
    requires AllWellFormed(cs)
    ensures Read(h + EncodeChunks(cs)) == Success(Png(Header(h), Group(map[], cs)))
  {
    var input := h + EncodeChunks(cs);
    CollectHeaderOf(h, EncodeChunks(cs));
    assert input[..|h|] == h;
    assert input[|h|..] == EncodeChunks(cs);
    FramesOfEncoding(cs);
    ReadChunksGroupsFrames(EncodeChunks(cs), map[]);
  }

  /** Grouping keeps every frame: visiting each key once, in any order,
      meets every chunk of the file exactly once, so the groups hold as
      many chunks as there are frames. */
  lemma ReadKeepsEveryChunk(h: seq<byte>, cs: seq<Chunk>, ts: seq<Tag>)
    requires |h| > 0 && h[|h| - 1] == LF && CountLF(h) == 2
    requires AllWellFormed(cs)
    requires Enumerates(ts, Group(map[], cs))
    ensures Read(h + EncodeChunks(cs)).Success?
    ensures multiset(Flatten(Read(h + EncodeChunks(cs)).value.chunks, ts)) == multiset(cs)
    ensures |Flatten(Read(h + EncodeChunks(cs)).value.chunks, ts)| == |cs|
  {
    ReadOfEncoding(h, cs);
    FlattenGroup(map[], cs, ts);
    FlattenEmpty(ts);
    forall i | 0 <= i < |cs|
      ensures cs[i].chunkType in ts
    {
      OfTypeHas(cs, i);
      GroupLookup(map[], cs, cs[i].chunkType);
    }
    AmongAll(cs, ts);
    var f := Flatten(Group(map[], cs), ts);
    assert |multiset(f)| == |multiset(cs)|;
  }

  /** A file cut anywhere inside a frame (after its first byte, before its
      last) fails to read; nothing decoded before the cut is returned. */
  lemma ReadOfTruncation(h: seq<byte>, cs: seq<Chunk>, c: Chunk, k: nat)
    requires |h| > 0 && h[|h| - 1] == LF && CountLF(h) == 2
    requires AllWellFormed(cs) && WellFormed(c)
    requires 0 < k < |EncodeChunk(c)|
    ensures Read(h + (EncodeChunks(cs) + EncodeChunk(c)[..k])).Failure?
  {
    var body := EncodeChunks(cs) + EncodeChunk(c)[..k];
    CollectHeaderOf(h, body);
    assert (h + body)[|h|..] == body;
    FramesSkip(cs, EncodeChunk(c)[..k]);
    ReadFrameOfTruncation(c, k);
    ReadChunksGroupsFrames(body, map[]);
  }

  /** One to three bytes left after the last frame are an error, not a
      clean end. */
  lemma ReadOfTrailingBytes(h: seq<byte>, cs: seq<Chunk>, tail: seq<byte>)
    requires |h| > 0 && h[|h| - 1] == LF && CountLF(h) == 2
    requires AllWellFormed(cs) && 0 < |tail| < 4
    ensures Read(h + (EncodeChunks(cs) + tail)) == Failure(UnexpectedEOF)
  {
    var body := EncodeChunks(cs) + tail;
    CollectHeaderOf(h, body);
    assert (h + body)[|h|..] == body;
    FramesSkip(cs, tail);
    ReadChunksGroupsFrames(body, map[]);
  }
}
