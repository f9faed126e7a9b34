/**
 * `arrayBufferToBase64` of src/entrypoints/background/utils/encoding.ts:
 * the bytes are turned into a binary string 8192 at a time (one
 * `String.fromCharCode(...slice)` per chunk), the chunks are joined, and
 * the result goes through `btoa`.
 */
module Encoding {
  import opened Base64

  const ChunkSize: nat := 8192

  function Min(a: int, b: int): int {
    if a <= b then a else b
  }

  /** `chunks.join('')`. */
  function Join(chunks: seq<string>): string {
    if |chunks| == 0 then "" else Join(chunks[..|chunks| - 1]) + chunks[|chunks| - 1]
  }

  /** Bytes [start, end) of the buffer as a binary string: `subarray` then `fromCharCode`. */
  function ChunkText(bytes: seq<byte>, start: nat, end: nat): string
    requires start <= end <= |bytes|
  {
    Latin1(bytes[start..end])
  }

  /** Converting bytes to characters commutes with concatenation. */
  lemma Latin1Append(xs: seq<byte>, ys: seq<byte>)
    ensures Latin1(xs + ys) == Latin1(xs) + Latin1(ys)
  {
  }

  /** Offset of chunk k: `i` on the k-th iteration of the loop. */
  function Start(k: nat): nat {
    k * 8192
  }

  /** Chunk k of the buffer: bytes [Start(k), min(Start(k) + 8192, n)) as characters. */
  predicate IsChunk(bytes: seq<byte>, k: nat, c: string) {
    Start(k) < |bytes| && c == ChunkText(bytes, Start(k), Min(Start(k) + ChunkSize, |bytes|))
  }

  /** A chunk that starts inside the buffer is non-empty and at most 8192 characters long. */
  lemma ChunkLength(bytes: seq<byte>, k: nat, c: string)
    requires IsChunk(bytes, k, c)
    ensures 0 < |c| <= ChunkSize
  {
  }

  /**
   * The chunking loop. Chunk k covers bytes [k*8192, min((k+1)*8192, n)):
   * there are ceil(n/8192) chunks, none empty, none longer than 8192, and
   * joined they are exactly the bytes as characters, in order.
   */
  method ChunkBinary(bytes: seq<byte>) returns (chunks: seq<string>)
    ensures |chunks| == (|bytes| + ChunkSize - 1) / ChunkSize
    ensures forall k: nat :: k < |chunks| ==> IsChunk(bytes, k, chunks[k])
    ensures forall k :: 0 <= k < |chunks| ==> 0 < |chunks[k]| <= ChunkSize
    ensures Join(chunks) == Latin1(bytes)
  {
    var n := |bytes|;
    chunks := [];
    var i := 0;
    while i < n
      invariant i == Start(|chunks|)
      invariant |chunks| == 0 || Start(|chunks| - 1) < n
      invariant forall k: nat :: k < |chunks| ==> IsChunk(bytes, k, chunks[k])
      invariant Join(chunks) == Latin1(bytes[..Min(i, n)])
      decreases n - i
    {
      var end := Min(i + ChunkSize, n);
      var piece := ChunkText(bytes, i, end);
      JoinStep(bytes, chunks, i, end);
      assert IsChunk(bytes, |chunks|, piece);
      ChunksExtend(bytes, chunks, piece);
      chunks := chunks + [piece];
      i := i + ChunkSize;
    }
    assert bytes[..Min(i, n)] == bytes;
    CeilChunks(n, |chunks|);
    forall k | 0 <= k < |chunks|
      ensures 0 < |chunks[k]| <= ChunkSize
    {
      ChunkLength(bytes, k, chunks[k]);
    }
  }

  /** Appending chunk number |chunks| keeps every chunk in its place. */
  lemma ChunksExtend(bytes: seq<byte>, chunks: seq<string>, piece: string)
    requires forall k: nat :: k < |chunks| ==> IsChunk(bytes, k, chunks[k])
    requires IsChunk(bytes, |chunks|, piece)
    ensures forall k: nat :: k < |chunks| + 1 ==> IsChunk(bytes, k, (chunks + [piece])[k])
  {
    forall k: nat | k < |chunks| + 1
      ensures IsChunk(bytes, k, (chunks + [piece])[k])
    {
      if k < |chunks| {
        assert (chunks + [piece])[k] == chunks[k];
      }
    }
  }

  /** Appending the text of bytes [i, end) to a join covering [0, i) covers [0, end). */
  lemma JoinStep(bytes: seq<byte>, chunks: seq<string>, i: nat, end: nat)
    requires i <= end <= |bytes|
    requires Join(chunks) == Latin1(bytes[..i])
    ensures Join(chunks + [ChunkText(bytes, i, end)]) == Latin1(bytes[..end])
  {
    assert (chunks + [ChunkText(bytes, i, end)])[..|chunks|] == chunks;
    assert bytes[..end] == bytes[..i] + bytes[i..end];
    Latin1Append(bytes[..i], bytes[i..end]);
  }

  /** k chunks of 8192 cover n bytes with the last one non-empty exactly when k = ceil(n/8192). */
  lemma CeilChunks(n: nat, k: nat)
    requires n <= Start(k)
    requires k == 0 || Start(k - 1) < n
    ensures k == (n + ChunkSize - 1) / ChunkSize
  {
  }

  /**
   * `arrayBufferToBase64(buffer)`: btoa never throws on the joined chunks, and
   * the result is the RFC 4648 base64 encoding of the bytes, whatever the
   * chunk size (so Base64.DecodeEncode reads the bytes back from it).
   */
  method ArrayBufferToBase64(bytes: seq<byte>) returns (r: string)
    ensures r == Encode(bytes)
    ensures |r| == 4 * ((|bytes| + 2) / 3)
    ensures |bytes| == 0 ==> r == ""
  {
    var chunks := ChunkBinary(bytes);
    var binary := Join(chunks);
    BtoaOfBytes(bytes);
    var encoded := Btoa(binary);
    r := encoded.value;
  }
}
