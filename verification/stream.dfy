/** The two kinds of read the frame loop of `Read` performs, over the part
    of the input not yet consumed. The input is fully available in memory,
    so a read delivers as many bytes as it asks for whenever that many
    remain. Each read returns what it delivered and what is left. */
module Stream {
  import opened Bytes
  import opened Errors

  function Min(a: int, b: int): int {
    if a <= b then a else b
  }

  /** `binary.Read` of a four-byte value, which reads with `io.ReadFull`:
      all four bytes, `io.EOF` if none remain, `io.ErrUnexpectedEOF` if
      only one to three remain. */
  function ReadWord(s: seq<byte>): (r: Result<(seq<byte>, seq<byte>)>)
    ensures r.Success? <==> |s| >= 4
    ensures r.Success? ==> |r.value.0| == 4 && r.value.0 + r.value.1 == s
    ensures r.Failure? ==> (r.error == EOF <==> s == [])
    ensures r.Failure? ==> (r.error == UnexpectedEOF <==> s != [])
  {
    if s == [] then Failure(EOF)
    else if |s| < 4 then Failure(UnexpectedEOF)
    else Success((s[..4], s[4..]))
  }

  /** `bufio.Reader.Read` into a fresh zeroed buffer of `k` bytes: it fills
      as much of the buffer as input remains and leaves the rest zero; it
      fails with `io.EOF` only when it asks for bytes and none remain. */
  function ReadInto(s: seq<byte>, k: nat): (r: Result<(seq<byte>, seq<byte>)>)
    ensures r.Failure? <==> k > 0 && s == []
    ensures r.Failure? ==> r.error == EOF
    ensures r.Success? ==> |r.value.0| == k
    ensures r.Success? ==> var n := Min(k, |s|);
              r.value.0 == s[..n] + Zeros(k - n) && r.value.1 == s[n..]
    ensures r.Success? && k <= |s| ==> r.value.0 + r.value.1 == s
  {
    if k > 0 && s == [] then Failure(EOF)
    else
      var n := Min(k, |s|);
      assert s[..n] + s[n..] == s;
      Success((s[..n] + Zeros(k - n), s[n..]))
  }

  /** A word followed by anything reads back as that word. */
  lemma ReadWordOf(w: seq<byte>, rest: seq<byte>)
    requires |w| == 4
    ensures ReadWord(w + rest) == Success((w, rest))
  {
    assert (w + rest)[..4] == w;
    assert (w + rest)[4..] == rest;
  }

  /** A buffer's worth of bytes followed by anything fills the buffer
      exactly, with no zero padding. */
  lemma ReadIntoOf(b: seq<byte>, rest: seq<byte>)
    ensures ReadInto(b + rest, |b|) == Success((b, rest))
  {
    assert (b + rest)[..|b|] == b;
    assert (b + rest)[|b|..] == rest;
    assert b + Zeros(0) == b;
  }
}
