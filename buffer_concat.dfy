/// The `Buffer.concat` stand-in of src/cli.ts (lines 29-40): the chunks read
/// from standard input are copied, one after another, into a new byte array.
module BufferConcat {
  newtype byte = x: int | 0 <= x < 256

  /** The sum of the chunk lengths, added from the left as `reduce` does. */
  function TotalLength(chunks: seq<array<byte>>): nat
    decreases |chunks|
  {
    if chunks == [] then 0
    else TotalLength(chunks[..|chunks| - 1]) + chunks[|chunks| - 1].Length
  }

  /** The bytes of the chunks, in order. */
  function Flatten(chunks: seq<array<byte>>): (bytes: seq<byte>)
    reads chunks
    ensures |bytes| == TotalLength(chunks)
    decreases |chunks|
  {
    if chunks == [] then []
    else Flatten(chunks[..|chunks| - 1]) + chunks[|chunks| - 1][..]
  }

  lemma {:induction false} FlattenAppend(a: seq<array<byte>>, b: seq<array<byte>>)
    ensures Flatten(a + b) == Flatten(a) + Flatten(b)
    ensures TotalLength(a + b) == TotalLength(a) + TotalLength(b)
    decreases |b|
  {
    if b == [] {
      assert a + b == a;
    } else {
      assert (a + b)[..|a + b| - 1] == a + b[..|b| - 1];
      FlattenAppend(a, b[..|b| - 1]);
    }
  }

  /**
   * Chunk `i` occupies the bytes from the total length of the chunks before it
   * up to the total length of the chunks up to and including it.
   */
  lemma ChunkAt(chunks: seq<array<byte>>, i: nat)
    requires i < |chunks|
    ensures TotalLength(chunks[..i]) + chunks[i].Length <= TotalLength(chunks)
    ensures Flatten(chunks)[TotalLength(chunks[..i])..TotalLength(chunks[..i]) + chunks[i].Length] == chunks[i][..]
  {
    assert chunks == chunks[..i + 1] + chunks[i + 1..];
    FlattenAppend(chunks[..i + 1], chunks[i + 1..]);
    FlattenStep(chunks, i);
    SliceMiddle(Flatten(chunks[..i]), chunks[i][..], Flatten(chunks[i + 1..]));
  }

  lemma SliceMiddle<T>(a: seq<T>, b: seq<T>, c: seq<T>)
    ensures (a + b + c)[|a|..|a| + |b|] == b
  {
  }

  lemma PrefixLength(chunks: seq<array<byte>>, n: nat)
    requires n <= |chunks|
    ensures TotalLength(chunks[..n]) <= TotalLength(chunks)
  {
    assert chunks == chunks[..n] + chunks[n..];
    FlattenAppend(chunks[..n], chunks[n..]);
  }

  /** Extending the prefix of chunks by one appends that chunk's bytes. */
  lemma FlattenStep(chunks: seq<array<byte>>, i: nat)
    requires i < |chunks|
    ensures Flatten(chunks[..i + 1]) == Flatten(chunks[..i]) + chunks[i][..]
    ensures TotalLength(chunks[..i + 1]) == TotalLength(chunks[..i]) + chunks[i].Length
  {
    assert chunks[..i + 1][..i] == chunks[..i];
  }

  /** `result.set(c, offset)`: the bytes of `c` are written from `offset` on. */
  method Set(result: array<byte>, c: array<byte>, offset: nat)
    requires c != result
    requires offset + c.Length <= result.Length
    modifies result
    ensures result[..offset] == old(result[..offset])
    ensures result[offset..offset + c.Length] == c[..]
    ensures result[offset + c.Length..] == old(result[offset + c.Length..])
  {
    forall k | 0 <= k < c.Length {
      result[offset + k] := c[k];
    }
  }

  /** Line 31: the total length, summed from the left. */
  method SumLengths(chunks: seq<array<byte>>) returns (total: nat)
    ensures total == TotalLength(chunks)
  {
    total := 0;
    for i := 0 to |chunks|
      invariant total == TotalLength(chunks[..i])
    {
      assert chunks[..i + 1][..i] == chunks[..i];
      total := total + chunks[i].Length;
    }
    assert chunks[..|chunks|] == chunks;
  }

  /** Lines 30-39: a new array holding the chunks' bytes one after another. */
  method Concat(chunks: seq<array<byte>>) returns (result: array<byte>)
    ensures fresh(result)
    ensures result.Length == TotalLength(chunks)
    ensures result[..] == Flatten(chunks)
  {
    var totalLength := SumLengths(chunks);
    result := new byte[totalLength];
    var offset := 0;
    for i := 0 to |chunks|
      invariant result !in chunks
      invariant offset == TotalLength(chunks[..i])
      invariant offset <= result.Length
      invariant result[..offset] == Flatten(chunks[..i])
    {
      var c := chunks[i];
      PrefixLength(chunks, i + 1);
      FlattenStep(chunks, i);
      ghost var prefix := result[..offset];
      Set(result, c, offset);
      assert result[..offset + c.Length] == prefix + c[..] by {
        assert result[..offset + c.Length] == result[..offset] + result[offset..offset + c.Length];
      }
      offset := offset + c.Length;
    }
    assert chunks[..|chunks|] == chunks;
    assert result[..offset] == result[..];
  }
}
