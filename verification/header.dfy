/** The file header: how `Read` collects it and how `Header.Verify`
    classifies it, with the two newline transcodings whose damage the
    classification is designed to name. */
module Headers {
  import opened Bytes
  import opened Errors

  /** The leading bytes of a file, up to and including the second line feed. */
  datatype Header = Header(bytes: seq<byte>)

  /** The PNG signature of section 5.2 of the PNG Specification. */
  const Signature: seq<byte> := [0x89, 0x50, 0x4E, 0x47, 0x0D, 0x0A, 0x1A, 0x0A]

  const Magic: byte := 0x89

  /** The bytes of "PNG". */
  const Name: seq<byte> := [0x50, 0x4E, 0x47]

  /** The not-a-PNG test: byte 0 is wrong AND bytes 1..3 are not "PNG".
      Go slices bytes 1..3 up to the slice's capacity, not its length. A
      header collected by `Read` is grown by `append` from nothing, so its
      capacity is at least 8 and its spare bytes are zero: for a header
      shorter than 4 bytes the slice ends in a zero byte and is never
      "PNG". */
  predicate Foreign(h: seq<byte>)
    requires |h| > 0
  {
    h[0] != Magic && (|h| < 4 || h[1..4] != Name)
  }

  /** `Header.Verify`. Go evaluates the not-a-PNG test left to right and
      stops early, so bytes 1..3 are sliced only when byte 0 is wrong;
      indexing byte 0, 5 or 7 past the end of the header panics. */
  function VerifyHeader(h: Header): (r: Option<Error>)
    ensures r == Some(NotPNG) <==> |h.bytes| > 0 && Foreign(h.bytes)
    ensures r == Some(IndexPanic) <==> |h.bytes| == 0 || (|h.bytes| < 6 && !Foreign(h.bytes))
    ensures 6 <= |h.bytes| < 8 && !Foreign(h.bytes) ==>
              r == (if h.bytes[5] != CR then Some(DOSToUnixConversion) else Some(InvalidHeaderLength))
    ensures |h.bytes| >= 8 && !Foreign(h.bytes) ==>
              (r == None <==> h.bytes[7] == LF) && (r != None ==> r == Some(UnixToDOSConversion))
  {
    var b := h.bytes;
    if |b| == 0 then Some(IndexPanic)
    else if Foreign(b) then Some(NotPNG)
    else if |b| < 8 then
      if |b| < 6 then Some(IndexPanic)
      else if b[5] != CR then Some(DOSToUnixConversion)
      else Some(InvalidHeaderLength)
    else if b[7] != LF then Some(UnixToDOSConversion)
    else None
  }

  /** The verdict depends only on the length class (under 8 bytes or not)
      and on bytes 0..3, 5 and 7. */
  lemma VerifyHeaderReadsFewBytes(g: Header, h: Header)
    requires |g.bytes| >= 6 && |h.bytes| >= 6
    requires (|g.bytes| < 8) == (|h.bytes| < 8)
    requires g.bytes[..4] == h.bytes[..4] && g.bytes[5] == h.bytes[5]
    requires |g.bytes| >= 8 ==> g.bytes[7] == h.bytes[7]
    ensures VerifyHeader(g) == VerifyHeader(h)
  {
    assert g.bytes[0] == g.bytes[..4][0] && h.bytes[0] == h.bytes[..4][0];
    assert g.bytes[1..4] == g.bytes[..4][1..] && h.bytes[1..4] == h.bytes[..4][1..];
  }

  /** A correct byte 0 or a correct "PNG" alone is enough to escape
      `NotPNG`: a header with a damaged byte 0 is accepted. */
  lemma DamagedMagicAccepted()
    ensures VerifyHeader(Header([0x00, 0x50, 0x4E, 0x47, 0x0D, 0x0A, 0x1A, 0x0A])) == None
  {}

  // ---------------------------------------------------------------------
  // Collecting the header

  /** The header-reading phase of `Read`: move bytes one at a time from the
      input `s` to the header `taken` until the header holds two line feeds
      (the source's `lfDetection` counter is `CountLF(taken)`). Running out
      of input first is the `io.EOF` of `ReadByte`. The result is the header
      and the input left after it. */
  function CollectHeader(taken: seq<byte>, s: seq<byte>): (r: Result<(seq<byte>, seq<byte>)>)
    requires CountLF(taken) < 2
    ensures r.Success? <==> CountLF(taken + s) >= 2
    ensures r.Failure? ==> r.error == EOF
    ensures r.Success? ==>
              var (h, rest) := r.value;
              && taken + s == h + rest && |taken| < |h|
              && h[|h| - 1] == LF && CountLF(h) == 2
    decreases |s|
  {
    if s == [] then
      assert taken + s == taken;
      Failure(EOF)
    else
      var taken' := taken + [s[0]];
      CountLFConcat(taken, [s[0]]);
      assert taken + s == taken' + s[1..];
      CountLFConcat(taken', s[1..]);
      if CountLF(taken') >= 2 then Success((taken', s[1..]))
      else CollectHeader(taken', s[1..])
  }

  /** Collecting from the start of the input: the header is a non-empty
      prefix of the input ending at its second line feed. */
  lemma CollectFromStart(input: seq<byte>)
    ensures CollectHeader([], input).Success? <==> CountLF(input) >= 2
    ensures CollectHeader([], input).Failure? ==> CollectHeader([], input).error == EOF
    ensures CollectHeader([], input).Success? ==>
              var (h, rest) := CollectHeader([], input).value;
              && input == h + rest && 0 < |h| <= |input| && h == input[..|h|]
              && h[|h| - 1] == LF && CountLF(h) == 2
  {
    assert [] + input == input;
    var r := CollectHeader([], input);
    if r.Success? {
      var (h, rest) := r.value;
      assert (h + rest)[..|h|] == h;
    }
  }

  lemma EndsWithLF(s: seq<byte>)
    requires |s| > 0 && s[|s| - 1] == LF
    ensures CountLF(s) >= 1
  {
    assert s == s[..|s| - 1] + [LF];
    CountLFConcat(s[..|s| - 1], [LF]);
  }

  /** Once the bytes `u` still to be taken end at the second line feed, the
      header is completed by exactly `u`, whatever follows. */
  lemma {:induction false} CollectStopsAfterSecondLF(taken: seq<byte>, u: seq<byte>, rest: seq<byte>)
    requires CountLF(taken) < 2
    requires |u| > 0 && u[|u| - 1] == LF && CountLF(taken + u) == 2
    ensures CollectHeader(taken, u + rest) == Success((taken + u, rest))
    decreases |u|
  {
    var taken' := taken + [u[0]];
    assert (u + rest)[0] == u[0];
    assert (u + rest)[1..] == u[1..] + rest;
    if |u| == 1 {
      assert taken' == taken + u;
    } else {
      assert taken + u == taken' + u[1..];
      CountLFConcat(taken', u[1..]);
      EndsWithLF(u[1..]);
      CollectStopsAfterSecondLF(taken', u[1..], rest);
    }
  }

  /** The header is the shortest prefix holding two line feeds: a prefix `h`
      with exactly two, the last at its end, is what is collected,
      whatever follows it. */
  lemma CollectHeaderOf(h: seq<byte>, rest: seq<byte>)
    requires |h| > 0 && h[|h| - 1] == LF && CountLF(h) == 2
    ensures CollectHeader([], h + rest) == Success((h, rest))
  {
    assert [] + h == h;
    CollectStopsAfterSecondLF([], h, rest);
  }

  // ---------------------------------------------------------------------
  // Newline transcodings

  /** One step of a DOS-to-Unix pass: a leading CR LF pair becomes LF,
      any other leading byte is kept. The result is the output and how
      many input bytes it consumed. */
  function DosHead(s: seq<byte>): (r: (seq<byte>, nat))
    requires |s| > 0
    ensures 1 <= r.1 <= |s| && |r.0| == 1
  {
    if |s| >= 2 && s[0] == CR && s[1] == LF then ([LF], 2) else ([s[0]], 1)
  }

  /** A DOS-to-Unix text-mode pass: every CR LF pair becomes LF. */
  function DosToUnix(s: seq<byte>): seq<byte>
    decreases |s|
  {
    if s == [] then [] else DosHead(s).0 + DosToUnix(s[DosHead(s).1..])
  }

  /** A Unix-to-DOS text-mode pass: every LF becomes CR LF. */
  function UnixToDos(s: seq<byte>): seq<byte>
    decreases |s|
  {
    if s == [] then []
    else if s[0] == LF then [CR, LF] + UnixToDos(s[1..])
    else [s[0]] + UnixToDos(s[1..])
  }

  lemma {:induction false} UnixToDosConcat(a: seq<byte>, b: seq<byte>)
    ensures UnixToDos(a + b) == UnixToDos(a) + UnixToDos(b)
    decreases |a|
  {
    if a == [] {
      assert a + b == b;
    } else {
      assert (a + b)[0] == a[0];
      assert (a + b)[1..] == a[1..] + b;
      UnixToDosConcat(a[1..], b);
    }
  }

  /** A DOS-to-Unix pass over a concatenation splits when no CR LF pair
      straddles the seam. */
  lemma {:induction false} DosToUnixConcat(a: seq<byte>, b: seq<byte>)
    requires a == [] || a[|a| - 1] != CR
    ensures DosToUnix(a + b) == DosToUnix(a) + DosToUnix(b)
    decreases |a|
  {
    if a == [] {
      assert a + b == b;
    } else {
      var (out, k) := DosHead(a);
      DosHeadConcat(a, b);
      var a' := a[k..];
      assert (a + b)[k..] == a' + b;
      assert a' == [] || a'[|a'| - 1] == a[|a| - 1];
      DosToUnixConcat(a', b);
      AppendAssociative(out, DosToUnix(a'), DosToUnix(b));
    }
  }

  /** The first step of a DOS-to-Unix pass over `a + b` is that over `a`
      when no CR LF pair straddles the seam. */
  lemma DosHeadConcat(a: seq<byte>, b: seq<byte>)
    requires |a| > 0 && a[|a| - 1] != CR
    ensures DosHead(a + b) == DosHead(a)
  {
    assert (a + b)[0] == a[0];
    if |a| >= 2 {
      assert (a + b)[1] == a[1];
    }
  }

  /** Neither pass changes how many line feeds there are, so a transcoded
      header still ends at its second line feed. */
  lemma {:induction false} UnixToDosKeepsLF(s: seq<byte>)
    ensures CountLF(UnixToDos(s)) == CountLF(s)
    decreases |s|
  {
    if s != [] {
      UnixToDosKeepsLF(s[1..]);
      var head := if s[0] == LF then [CR, LF] else [s[0]];
      assert UnixToDos(s) == head + UnixToDos(s[1..]);
      CountLFConcat(head, UnixToDos(s[1..]));
      assert s == [s[0]] + s[1..];
      CountLFConcat([s[0]], s[1..]);
    }
  }

  lemma {:induction false} DosToUnixKeepsLF(s: seq<byte>)
    ensures CountLF(DosToUnix(s)) == CountLF(s)
    decreases |s|
  {
    if s != [] {
      var (out, k) := DosHead(s);
      DosToUnixKeepsLF(s[k..]);
      assert s == s[..k] + s[k..];
      CountLFConcat(s[..k], s[k..]);
      CountLFConcat(out, DosToUnix(s[k..]));
      assert CountLF(s[..k]) == CountLF(out) by {
        if k == 2 {
          assert s[..k] == [CR, LF];
        } else {
          assert s[..k] == out;
        }
      }
    }
  }

  // ---------------------------------------------------------------------
  // Collected signatures and their verdicts

  /** An intact signature is collected as exactly its 8 bytes and passes. */
  lemma IntactSignature(rest: seq<byte>)
    ensures CollectHeader([], Signature + rest) == Success((Signature, rest))
    ensures VerifyHeader(Header(Signature)) == None
  {
    SignatureLFs();
    CollectHeaderOf(Signature, rest);
  }

  lemma SignatureLFs()
    ensures CountLF(Signature) == 2
  {
    assert CountLF(Signature[7..]) == 1;
    assert CountLF(Signature[6..]) == 1;
    assert CountLF(Signature[5..]) == 2;
    assert CountLF(Signature[4..]) == 2;
    assert CountLF(Signature[2..]) == 2;
  }

  lemma DosToUnixOfSignatureTail()
    ensures DosToUnix(Signature[3..]) == [0x47, LF, 0x1A, LF]
  {
    assert DosToUnix(Signature[7..]) == [LF];
    assert DosToUnix(Signature[6..]) == [0x1A, LF];
    assert DosToUnix(Signature[4..]) == [LF, 0x1A, LF];
  }

  lemma DosToUnixOfSignatureFromTwo()
    ensures DosToUnix(Signature[2..]) == [0x4E, 0x47, LF, 0x1A, LF]
  {
    DosToUnixOfSignatureTail();
  }

  lemma DosToUnixOfSignatureMiddle()
    ensures DosToUnix(Signature[1..]) == [0x50, 0x4E, 0x47, LF, 0x1A, LF]
  {
    DosToUnixOfSignatureFromTwo();
  }

  lemma DosToUnixOfSignature()
    ensures DosToUnix(Signature) == [0x89, 0x50, 0x4E, 0x47, 0x0A, 0x1A, 0x0A]
  {
    DosToUnixOfSignatureMiddle();
  }

  lemma UnixToDosOfSignatureTail()
    ensures UnixToDos(Signature[4..]) == [CR, CR, LF, 0x1A, CR, LF]
  {
    assert UnixToDos(Signature[7..]) == [CR, LF];
    assert UnixToDos(Signature[6..]) == [0x1A, CR, LF];
    assert UnixToDos(Signature[5..]) == [CR, LF, 0x1A, CR, LF];
  }

  lemma UnixToDosOfSignature()
    ensures UnixToDos(Signature) == [0x89, 0x50, 0x4E, 0x47, 0x0D, 0x0D, 0x0A, 0x1A, 0x0D, 0x0A]
  {
    UnixToDosOfSignatureTail();
  }

  /** A file sent through a DOS-to-Unix pass loses the CR of the signature:
      7 bytes are collected and the verdict is `DOSToUnixConversion`. */
  lemma DosToUnixDiagnosed(rest: seq<byte>)
    ensures DosToUnix(Signature) == [0x89, 0x50, 0x4E, 0x47, 0x0A, 0x1A, 0x0A]
    ensures |DosToUnix(Signature)| == 7
    ensures CollectHeader([], DosToUnix(Signature + rest)) == Success((DosToUnix(Signature), DosToUnix(rest)))
    ensures VerifyHeader(Header(DosToUnix(Signature))) == Some(DOSToUnixConversion)
  {
    var d: seq<byte> := [0x89, 0x50, 0x4E, 0x47, 0x0A, 0x1A, 0x0A];
    DosToUnixOfSignature();
    DosToUnixConcat(Signature, rest);
    SignatureLFs();
    DosToUnixKeepsLF(Signature);
    CollectHeaderOf(d, DosToUnix(rest));
  }

  /** A file sent through a Unix-to-DOS pass gains a CR before each LF of the
      signature: 10 bytes are collected, byte 7 is 0x1A, and the verdict is
      `UnixToDOSConversion`. */
  lemma UnixToDosDiagnosed(rest: seq<byte>)
    ensures |UnixToDos(Signature)| == 10
    ensures UnixToDos(Signature)[7] == 0x1A
    ensures CollectHeader([], UnixToDos(Signature + rest)) == Success((UnixToDos(Signature), UnixToDos(rest)))
    ensures VerifyHeader(Header(UnixToDos(Signature))) == Some(UnixToDOSConversion)
  {
    var u: seq<byte> := [0x89, 0x50, 0x4E, 0x47, 0x0D, 0x0D, 0x0A, 0x1A, 0x0D, 0x0A];
    UnixToDosOfSignature();
    UnixToDosConcat(Signature, rest);
    SignatureLFs();
    UnixToDosKeepsLF(Signature);
    CollectHeaderOf(u, UnixToDos(rest));
  }
}
