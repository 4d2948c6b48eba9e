/** The body of `main`: decode the file, classify its header, then verify
    the chunks group by group, each group only up to its first IEND chunk.
    Reading the file and logging are left to the caller; the order in which
    Go happens to iterate the map is a parameter. */
module Driver {
  import opened Bytes
  import opened Errors
  import opened Chunks
  import opened Headers
  import opened Decoder

  /** What the loop logs for one chunk: the chunk and what `Chunk.Verify`
      returned for it. */
  datatype Report = Report(chunk: Chunk, crc: bv32, error: Option<Error>)

  /** How a run ends: stopped by a `Read` error (`log.Fatalln`) or a panic
      in `Header.Verify`, or run to the end with the header's verdict and
      one report per verified chunk. A bad header verdict is logged and the
      run goes on. */
  datatype Run = Aborted(error: Error) | Ran(header: Option<Error>, reports: seq<Report>)

  function ReportOn(c: Chunk): Report {
    var (crc, e) := VerifyChunk(c);
    Report(c, crc, e)
  }

  /** The chunks of one group the inner loop verifies: the longest prefix
      holding no IEND chunk, where the loop's `break` fires. */
  function UntilEnd(cs: seq<Chunk>): (r: seq<Chunk>)
    ensures r <= cs
    ensures forall i | 0 <= i < |r| :: r[i].chunkType != IEND
    ensures |r| < |cs| ==> cs[|r|].chunkType == IEND
    decreases |cs|
  {
    if cs == [] || cs[0].chunkType == IEND then []
    else [cs[0]] + UntilEnd(cs[1..])
  }

  /** The chunks the whole loop verifies when the map yields its groups in
      the order `order`, in the order they are verified. */
  function Visited(g: ChunkMap, order: seq<Tag>): (r: seq<Chunk>)
    ensures forall i | 0 <= i < |r| :: r[i].chunkType != IEND
    decreases |order|
  {
    if order == [] then []
    else Visited(g, order[..|order| - 1]) + UntilEnd(Lookup(g, order[|order| - 1]))
  }

  /** The reports for `cs`, one per chunk, in order. */
  function Reports(cs: seq<Chunk>): (r: seq<Report>)
    ensures |r| == |cs|
    ensures forall i | 0 <= i < |cs| :: r[i] == ReportOn(cs[i])
  {
    seq(|cs|, i requires 0 <= i < |cs| => ReportOn(cs[i]))
  }

  /** A prefix free of IEND that stops at an IEND chunk or at the end is
      what `UntilEnd` keeps. */
  lemma {:induction false} UntilEndAt(cs: seq<Chunk>, j: nat)
    requires j <= |cs|
    requires forall i | 0 <= i < j :: cs[i].chunkType != IEND
    requires j == |cs| || cs[j].chunkType == IEND
    ensures UntilEnd(cs) == cs[..j]
    decreases |cs|
  {
    if j > 0 {
      var tail := cs[1..];
      assert forall i | 0 <= i < j - 1 :: tail[i] == cs[i + 1];
      UntilEndAt(tail, j - 1);
      assert cs[..j] == [cs[0]] + tail[..j - 1];
    }
  }

  /** The nested loop of `main`: for each group, verify its chunks in order
      until the first IEND chunk. */
  method VerifyAll(g: ChunkMap, order: seq<Tag>) returns (reports: seq<Report>)
    ensures reports == Reports(Visited(g, order))
  {
    reports := [];
    var k := 0;
    while k < |order|
      invariant 0 <= k <= |order|
      invariant reports == Reports(Visited(g, order[..k]))
    {
      var group := Lookup(g, order[k]);
      var more := VerifyGroup(group);
      ReportsAppend(Visited(g, order[..k]), UntilEnd(group));
      VisitedStep(g, order, k);
      reports := reports + more;
      k := k + 1;
    }
    assert order[..k] == order;
  }

  /** The inner loop of `main` over one group, with its `break` at the
      first IEND chunk. */
  method VerifyGroup(group: seq<Chunk>) returns (reports: seq<Report>)
    ensures reports == Reports(UntilEnd(group))
  {
    reports := [];
    var j := 0;
    while j < |group|
      invariant 0 <= j <= |group|
      invariant forall i | 0 <= i < j :: group[i].chunkType != IEND
      invariant reports == Reports(group[..j])
    {
      if group[j].chunkType == IEND {
        break;
      }
      ReportsAppend(group[..j], [group[j]]);
      assert group[..j + 1] == group[..j] + [group[j]];
      reports := reports + [ReportOn(group[j])];
      j := j + 1;
    }
    UntilEndAt(group, j);
  }

  lemma ReportsAppend(a: seq<Chunk>, b: seq<Chunk>)
    ensures Reports(a + b) == Reports(a) + Reports(b)
  {}

  /** Visiting one more group adds the part of it before its first IEND. */
  lemma VisitedStep(g: ChunkMap, order: seq<Tag>, k: nat)
    requires k < |order|
    ensures Visited(g, order[..k + 1]) == Visited(g, order[..k]) + UntilEnd(Lookup(g, order[k]))
  {
    assert order[..k + 1][..k] == order[..k];
  }

  /** `main` after reading the file. */
  method Inspect(input: seq<byte>, order: seq<Tag>) returns (r: Run)
    ensures Read(input).Failure? ==> r == Aborted(Read(input).error)
    ensures Read(input).Success? ==>
              var p := Read(input).value;
              var verdict := VerifyHeader(p.header);
              r == if verdict == Some(IndexPanic) then Aborted(IndexPanic)
                   else Ran(verdict, Reports(Visited(p.chunks, order)))
  {
    var decoded := Read(input);
    if decoded.Failure? {
      return Aborted(decoded.error);
    }
    var p := decoded.value;
    var verdict := VerifyHeader(p.header);
    if verdict == Some(IndexPanic) {
      return Aborted(IndexPanic);
    }
    var reports := VerifyAll(p.chunks, order);
    r := Ran(verdict, reports);
  }

  /** Drop every `t` from `ts`. */
  function Without(ts: seq<Tag>, t: Tag): (r: seq<Tag>)
    ensures forall u :: u in r <==> u in ts && u != t
    decreases |ts|
  {
    if ts == [] then []
    else
      var init := ts[..|ts| - 1];
      var last := ts[|ts| - 1];
      assert ts == init + [last];
      Without(init, t) + (if last == t then [] else [last])
  }

  lemma {:induction false} WithoutDistinct(ts: seq<Tag>, t: Tag)
    requires Distinct(ts)
    ensures Distinct(Without(ts, t))
    decreases |ts|
  {
    if ts != [] {
      var init := ts[..|ts| - 1];
      var last := ts[|ts| - 1];
      WithoutDistinct(init, t);
      assert last !in init;
    }
  }

  /** In a grouped map the `break` fires only in the IEND group, at its
      first chunk: the loop verifies every group but that one in full. */
  lemma {:induction false} VisitedSkipsOnlyEnd(g: ChunkMap, order: seq<Tag>)
    requires Grouped(g)
    ensures Visited(g, order) == Flatten(g, Without(order, IEND))
    decreases |order|
  {
    if order != [] {
      var init := order[..|order| - 1];
      var last := order[|order| - 1];
      VisitedSkipsOnlyEnd(g, init);
      var group := Lookup(g, last);
      var w := Without(init, IEND);
      assert last in g ==> GroupOf(last, g[last]);
      if last == IEND {
        UntilEndAt(group, 0);
        assert Without(order, IEND) == w;
      } else {
        UntilEndAt(group, |group|);
        assert Without(order, IEND) == w + [last];
        assert (w + [last])[..|w|] == w;
      }
    }
  }

  /** The chunks of `cs` whose type is among `ts` are those other than IEND
      when `ts` holds exactly the types of `cs` other than IEND. */
  lemma {:induction false} AmongAllButEnd(cs: seq<Chunk>, ts: seq<Tag>)
    requires forall i | 0 <= i < |cs| :: (cs[i].chunkType in ts <==> cs[i].chunkType != IEND)
    ensures Among(cs, ts) == NotOfType(cs, IEND)
    decreases |cs|
  {
    if cs != [] {
      var tail := cs[1..];
      assert forall i | 0 <= i < |tail| :: tail[i] == cs[i + 1];
      AmongAllButEnd(tail, ts);
    }
  }

  /** On a file of well-formed frames, whatever order the map yields its
      groups in, the loop verifies every chunk other than IEND exactly
      once and no IEND chunk. */
  lemma EveryChunkButEndVerifiedOnce(h: seq<byte>, cs: seq<Chunk>, order: seq<Tag>)
    requires |h| > 0 && h[|h| - 1] == LF && CountLF(h) == 2
    requires AllWellFormed(cs)
    requires Enumerates(order, Group(map[], cs))
    ensures Read(h + EncodeChunks(cs)).Success?
    ensures multiset(Visited(Read(h + EncodeChunks(cs)).value.chunks, order)) == multiset(NotOfType(cs, IEND))
  {
    ReadOfEncoding(h, cs);
    var g := Group(map[], cs);
    GroupPreserves(map[], cs);
    VisitedSkipsOnlyEnd(g, order);
    var w := Without(order, IEND);
    WithoutDistinct(order, IEND);
    FlattenGroup(map[], cs, w);
    FlattenEmpty(w);
    forall i | 0 <= i < |cs|
      ensures cs[i].chunkType in w <==> cs[i].chunkType != IEND
    {
      OfTypeHas(cs, i);
      GroupLookup(map[], cs, cs[i].chunkType);
    }
    AmongAllButEnd(cs, w);
  }
}
