/**
 The tagged chunk container of the mocopi protocol, as PacketChunk.cpp walks it: a little-endian length,
 a four-byte tag and a payload, over and over until the bytes end.
 */
module PacketChunks {
  import opened Bytes

  // ---- Little-endian numbers ----

  function LittleEndian(n: nat, width: nat): (r: bytes)
    ensures |r| == width
  {
    if width == 0 then [] else [n % 256] + LittleEndian(n / 256, width - 1)
  }

  function FromLittleEndian(s: bytes): nat {
    if s == [] then 0 else s[0] + 256 * FromLittleEndian(s[1..])
  }

  lemma {:induction false} LittleEndianIsRead(n: nat, width: nat)
    requires n < Pow256(width)
    ensures FromLittleEndian(LittleEndian(n, width)) == n
  {
    if width > 0 {
      LittleEndianIsRead(n / 256, width - 1);
    }
  }

  lemma {:induction false} ReadIsLittleEndian(s: bytes)
    ensures FromLittleEndian(s) < Pow256(|s|)
    ensures LittleEndian(FromLittleEndian(s), |s|) == s
  {
    if s != [] {
      ReadIsLittleEndian(s[1..]);
    }
  }

  lemma {:induction false} LittleEndianGrows(s: bytes, b: byte)
    ensures FromLittleEndian(s + [b]) == FromLittleEndian(s) + b * Pow256(|s|)
  {
    if s == [] {
      assert s + [b] == [b];
    } else {
      assert (s + [b])[1..] == s[1..] + [b];
      LittleEndianGrows(s[1..], b);
      Distribute(b, Pow256(|s| - 1));
    }
  }

  lemma Distribute(b: nat, p: nat)
    ensures 256 * (b * p) == b * (256 * p)
  {
  }

  /** Byte by byte, each shifted by eight times its index. */
  method ReadLittleEndian(s: bytes) returns (value: nat)
    ensures value == FromLittleEndian(s)
  {
    value := 0;
    for index := 0 to |s|
      invariant value == FromLittleEndian(s[..index])
    {
      assert s[..index + 1] == s[..index] + [s[index]];
      LittleEndianGrows(s[..index], s[index]);
      value := value + s[index] * Pow256(index);
    }
    assert s[..|s|] == s;
  }

  // ---- Chunks ----

  const HEADER := 8

  const TWO_32 := 0x1_0000_0000

  /** A chunk and where its header stands. */
  datatype Chunk = Chunk(tag: bytes, payload: bytes, offset: nat)

  /** The chunks from `at` to the end, or None when a header or a payload is cut short. */
  function ChunksFrom(u: bytes, at: nat, base: nat): Option<seq<Chunk>>
    requires at <= |u|
    decreases |u| - at
  {
    if at == |u| then Some([])
    else if |u| - at < HEADER then None
    else
      var length := FromLittleEndian(u[at..at + 4]);
      if length > |u| - at - HEADER then None
      else
        var chunk := Chunk(u[at + 4..at + 8], u[at + HEADER..at + HEADER + length], base + at);
        match ChunksFrom(u, at + HEADER + length, base)
        case None => None
        case Some(rest) => Some([chunk] + rest)
  }

  function Chunks(u: bytes, base: nat): Option<seq<Chunk>> {
    ChunksFrom(u, 0, base)
  }

  function EncodeChunk(tag: bytes, payload: bytes): bytes {
    LittleEndian(|payload|, 4) + tag + payload
  }

  function EncodeChunks(chunks: seq<Chunk>): bytes {
    if chunks == [] then [] else EncodeChunk(chunks[0].tag, chunks[0].payload) + EncodeChunks(chunks[1..])
  }

  predicate IsChunk(c: Chunk) {
    |c.tag| == 4 && |c.payload| < TWO_32
  }

  /** Well-formed chunks standing one after the other from `at`: each offset is what came before it. */
  predicate StandFrom(chunks: seq<Chunk>, at: nat) {
    chunks != [] ==>
      IsChunk(chunks[0]) && chunks[0].offset == at && StandFrom(chunks[1..], at + HEADER + |chunks[0].payload|)
  }

  method DecodePacketChunks(u: bytes, base: nat) returns (chunks: Option<seq<Chunk>>)
    ensures chunks == Chunks(u, base)
  {
    var offset, found: seq<Chunk> := 0, [];
    if Chunks(u, base).Some? {
      assert [] + Chunks(u, base).value == Chunks(u, base).value;
    }
    while offset != |u|
      invariant 0 <= offset <= |u|
      invariant Chunks(u, base) == Followed(found, ChunksFrom(u, offset, base))
      decreases |u| - offset
    {
      if |u| - offset < HEADER {
        return None;
      }
      var length := ReadLittleEndian(u[offset..offset + 4]);
      if length > |u| - offset - HEADER {
        return None;
      }
      var chunk := Chunk(u[offset + 4..offset + 8], u[offset + HEADER..offset + HEADER + length], base + offset);
      FollowedBy(found, chunk, ChunksFrom(u, offset + HEADER + length, base));
      found := found + [chunk];
      offset := offset + HEADER + length;
    }
    assert found + [] == found;
    chunks := Some(found);
  }

  function Followed(found: seq<Chunk>, rest: Option<seq<Chunk>>): Option<seq<Chunk>> {
    if rest.None? then None else Some(found + rest.value)
  }

  lemma FollowedBy(found: seq<Chunk>, next: Chunk, rest: Option<seq<Chunk>>)
    ensures Followed(found + [next], rest) == Followed(found, Followed([next], rest))
  {
    if rest.Some? {
      assert found + [next] + rest.value == found + ([next] + rest.value);
    }
  }

  // ---- Two-way inverse ----

  lemma HeaderIsRead(u: bytes, before: bytes, tag: bytes, payload: bytes, after: bytes)
    requires |tag| == 4 && |payload| < TWO_32 && u == before + EncodeChunk(tag, payload) + after
    ensures var at := |before|;
            && at + HEADER + |payload| <= |u| && FromLittleEndian(u[at..at + 4]) == |payload|
            && u[at + 4..at + 8] == tag && u[at + HEADER..at + HEADER + |payload|] == payload
            && u[at + HEADER + |payload|..] == after
  {
    var at := |before|;
    assert u[at..at + 4] == LittleEndian(|payload|, 4);
    assert Pow256(4) == TWO_32 by { assert Pow256(2) == 0x1_0000; }
    LittleEndianIsRead(|payload|, 4);
  }

  /** Encoded chunks are read back, each at the offset where it was put. */
  lemma {:induction false} EncodedIsRead(chunks: seq<Chunk>, u: bytes, before: bytes, base: nat)
    requires StandFrom(chunks, base + |before|) && u == before + EncodeChunks(chunks)
    ensures ChunksFrom(u, |before|, base) == Some(chunks)
    decreases |chunks|
  {
    hide EncodeChunk, FromLittleEndian;
    if chunks != [] {
      var c, after := chunks[0], EncodeChunks(chunks[1..]);
      assert u == before + EncodeChunk(c.tag, c.payload) + after;
      HeaderIsRead(u, before, c.tag, c.payload, after);
      EncodedLength(c);
      EncodedIsRead(chunks[1..], u, before + EncodeChunk(c.tag, c.payload), base);
      assert chunks == [c] + chunks[1..];
    }
  }

  lemma EncodedLength(c: Chunk)
    requires |c.tag| == 4
    ensures |EncodeChunk(c.tag, c.payload)| == HEADER + |c.payload|
  {
  }

  /** Bytes that are read as chunks are those chunks' encoding. */
  lemma {:induction false} ReadIsEncoded(u: bytes, at: nat, base: nat)
    requires at <= |u| && ChunksFrom(u, at, base).Some?
    ensures EncodeChunks(ChunksFrom(u, at, base).value) == u[at..]
    ensures StandFrom(ChunksFrom(u, at, base).value, base + at)
    decreases |u| - at
  {
    hide EncodeChunk;
    if at < |u| {
      var length := FromLittleEndian(u[at..at + 4]);
      ReadIsEncoded(u, at + HEADER + length, base);
      ChunkIsEncoded(u, at);
      var rest := ChunksFrom(u, at + HEADER + length, base).value;
      var c := Chunk(u[at + 4..at + 8], u[at + HEADER..at + HEADER + length], base + at);
      assert ([c] + rest)[1..] == rest;
    }
  }

  lemma ChunkIsEncoded(u: bytes, at: nat)
    requires at + HEADER <= |u| && FromLittleEndian(u[at..at + 4]) <= |u| - at - HEADER
    ensures var length := FromLittleEndian(u[at..at + 4]);
            && length < TWO_32
            && EncodeChunk(u[at + 4..at + 8], u[at + HEADER..at + HEADER + length]) + u[at + HEADER + length..] == u[at..]
  {
    assert Pow256(4) == TWO_32 by { assert Pow256(2) == 0x1_0000; }
    var length := FromLittleEndian(u[at..at + 4]);
    ReadIsLittleEndian(u[at..at + 4]);
    assert u[at..] == u[at..at + 4] + u[at + 4..at + 8] + u[at + HEADER..at + HEADER + length] + u[at + HEADER + length..];
  }

  /** The walk succeeds exactly on the encodings of chunks, and yields the chunks encoded. */
  lemma ContainerIsExact(u: bytes, base: nat, chunks: seq<Chunk>)
    ensures Chunks(u, base) == Some(chunks) <==> StandFrom(chunks, base) && EncodeChunks(chunks) == u
  {
    if StandFrom(chunks, base) && EncodeChunks(chunks) == u {
      assert u == [] + EncodeChunks(chunks);
      EncodedIsRead(chunks, u, [], base);
    }
    if Chunks(u, base) == Some(chunks) {
      ReadIsEncoded(u, 0, base);
      assert u[0..] == u;
    }
  }
}
