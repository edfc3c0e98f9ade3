/**
 * Cutting the compressed stream into base64-encoded chunks.  All three
 * revisions share this loop (`encode_data`): take `data[chunkptr:chunkptr +
 * chunksize]`, advance `chunkptr`, and when it passes the end append the
 * (always empty) tail `data[chunkptr:]`; empty encodings are dropped after.
 */
module Chunker {
  import opened Common

  function Min(a: int, b: int): int { if a < b then a else b }

  /** `s[lo:hi]` in Python for non-negative bounds: clamped, never an error. */
  function PySlice(s: seq<Byte>, lo: nat, hi: nat): (r: seq<Byte>)
    ensures lo >= |s| ==> r == []
    ensures lo <= hi <= |s| ==> r == s[lo..hi]
    ensures lo <= |s| < hi ==> r == s[lo..]
  {
    var a := Min(lo, |s|);
    var b := Min(hi, |s|);
    if b <= a then [] else s[a..b]
  }

  /** Consecutive slices of `size` bytes; only the last may be shorter. */
  function Slices(data: seq<Byte>, size: nat): seq<seq<Byte>>
    requires size > 0
    decreases |data|
  {
    if |data| == 0 then []
    else
      var n := Min(size, |data|);
      [data[..n]] + Slices(data[n..], size)
  }

  function Flatten(parts: seq<seq<Byte>>): seq<Byte> {
    if |parts| == 0 then [] else parts[0] + Flatten(parts[1..])
  }

  /** The slices, concatenated in order, are the data again. */
  lemma {:induction false} SlicesFlatten(data: seq<Byte>, size: nat)
    requires size > 0
    ensures Flatten(Slices(data, size)) == data
    decreases |data|
  {
    if |data| > 0 {
      var n := Min(size, |data|);
      var s := Slices(data, size);
      SlicesFlatten(data[n..], size);
      assert s[0] == data[..n];
      assert s[1..] == Slices(data[n..], size);
      assert data[..n] + data[n..] == data;
    }
  }

  /** Concatenating one more part. */
  lemma {:induction false} FlattenSnoc(parts: seq<seq<Byte>>, k: nat)
    requires k < |parts|
    ensures Flatten(parts[..k + 1]) == Flatten(parts[..k]) + parts[k]
    decreases k
  {
    if k > 0 {
      assert parts[..k + 1][1..] == parts[1..][..k];
      assert parts[..k][1..] == parts[1..][..k - 1];
      FlattenSnoc(parts[1..], k - 1);
    } else {
      assert parts[..1][1..] == [];
    }
  }

  /**
   * Every slice holds between 1 and `size` bytes and all but the last
   * exactly `size`, so their number is ceil(|data| / size): no slice for no
   * data, otherwise (count - 1) * size < |data| <= count * size.
   */
  lemma {:induction false} SlicesSizes(data: seq<Byte>, size: nat)
    requires size > 0
    ensures var r := Slices(data, size);
            && (|data| == 0 <==> |r| == 0)
            && (|r| - 1) * size < |data| <= |r| * size
            && (forall k :: 0 <= k < |r| ==> 0 < |r[k]| <= size)
            && (forall k :: 0 <= k < |r| - 1 ==> |r[k]| == size)
    decreases |data|
  {
    var r := Slices(data, size);
    if |data| > 0 {
      var n := Min(size, |data|);
      var rest := Slices(data[n..], size);
      SlicesSizes(data[n..], size);
      assert r[0] == data[..n];
      assert r[1..] == rest;
      assert |r| == |rest| + 1;
      assert (|r| - 1) * size == |rest| * size;
      assert |r| * size == |rest| * size + size;
      forall k | 0 <= k < |r| ensures 0 < |r[k]| <= size && (k < |r| - 1 ==> |r[k]| == size) {
        if k > 0 { assert r[k] == rest[k - 1]; }
      }
    }
  }

  /** The base64 text of each slice (before empty chunks are dropped). */
  function Encoded(p: Primitives, data: seq<Byte>, size: nat): seq<seq<Byte>>
    requires size > 0
    decreases |data|
  {
    if |data| == 0 then []
    else
      var n := Min(size, |data|);
      [p.b64encode(data[..n])] + Encoded(p, data[n..], size)
  }

  /** Each chunk is the base64 encoding of the slice at the same position. */
  lemma {:induction false} EncodedSlices(p: Primitives, data: seq<Byte>, size: nat)
    requires size > 0
    ensures |Encoded(p, data, size)| == |Slices(data, size)|
    ensures forall k :: 0 <= k < |Slices(data, size)| ==>
              Encoded(p, data, size)[k] == p.b64encode(Slices(data, size)[k])
    decreases |data|
  {
    if |data| > 0 {
      var n := Min(size, |data|);
      EncodedSlices(p, data[n..], size);
      var r := Encoded(p, data, size);
      var s := Slices(data, size);
      forall k | 0 < k < |s| ensures r[k] == p.b64encode(s[k]) {
        assert r[k] == Encoded(p, data[n..], size)[k - 1];
        assert s[k] == Slices(data[n..], size)[k - 1];
      }
    }
  }

  /** One step of the loop: the chunk at `ptr` followed by the chunks after it. */
  lemma EncodedStep(p: Primitives, data: seq<Byte>, ptr: nat, size: nat)
    requires size > 0
    requires ptr < |data|
    ensures Encoded(p, data[ptr..], size) ==
            [p.b64encode(PySlice(data, ptr, ptr + size))] + Encoded(p, data[Min(ptr + size, |data|)..], size)
  {
    var rest := data[ptr..];
    var n := Min(size, |rest|);
    assert PySlice(data, ptr, ptr + size) == rest[..n];
    assert rest[n..] == data[Min(ptr + size, |data|)..];
  }

  /**
   * The `while True` loop of `encode_data`: one base64 chunk per slice, then
   * the encoding of the empty tail (twice an empty slice when `data` is empty).
   */
  method RawChunks(p: Primitives, data: seq<Byte>, chunksize: nat) returns (chunks: seq<seq<Byte>>)
    requires chunksize > 0
    ensures chunks == Encoded(p, data, chunksize) +
                      (if |data| == 0 then [p.b64encode([]), p.b64encode([])] else [p.b64encode([])])
  {
    chunks := [];
    var chunkptr: nat := 0;
    while true
      invariant chunkptr < |data| || chunkptr == 0 == |data|
      invariant chunks + Encoded(p, data[chunkptr..], chunksize) == Encoded(p, data, chunksize)
      decreases |data| - chunkptr
    {
      var chunk := PySlice(data, chunkptr, chunkptr + chunksize);
      ghost var rest := Encoded(p, data[Min(chunkptr + chunksize, |data|)..], chunksize);
      if |data| > 0 {
        EncodedStep(p, data, chunkptr, chunksize);
        assert (chunks + [p.b64encode(chunk)]) + rest == chunks + ([p.b64encode(chunk)] + rest);
      }
      chunkptr := chunkptr + chunksize;
      chunks := chunks + [p.b64encode(chunk)];
      if chunkptr >= |data| {
        chunks := chunks + [p.b64encode(PySlice(data, chunkptr, |data|))];
        break;
      }
    }
  }

  /** `[chunk for chunk in chunks if len(chunk) > 0]`. */
  function NonEmpty(chunks: seq<seq<Byte>>): (r: seq<seq<Byte>>)
    ensures |r| <= |chunks|
    ensures forall k :: 0 <= k < |r| ==> |r[k]| > 0
    ensures (forall k :: 0 <= k < |chunks| ==> |chunks[k]| > 0) ==> r == chunks
    ensures (forall k :: 0 <= k < |chunks| ==> |chunks[k]| == 0) ==> r == []
  {
    if |chunks| == 0 then []
    else
      var last := chunks[|chunks| - 1];
      var init := chunks[..|chunks| - 1];
      assert init + [last] == chunks;
      NonEmpty(init) + (if |last| > 0 then [last] else [])
  }

  lemma {:induction false} NonEmptyAppend(a: seq<seq<Byte>>, b: seq<seq<Byte>>)
    ensures NonEmpty(a + b) == NonEmpty(a) + NonEmpty(b)
    decreases |b|
  {
    if |b| == 0 {
      assert a + b == a;
    } else {
      var init := b[..|b| - 1];
      assert (a + b)[..|a + b| - 1] == a + init;
      NonEmptyAppend(a, init);
    }
  }

  /** The loop at the end of `encode_data` in the two older revisions. */
  method KeepNonEmpty(chunks: seq<seq<Byte>>) returns (kept: seq<seq<Byte>>)
    ensures kept == NonEmpty(chunks)
  {
    kept := [];
    for k := 0 to |chunks|
      invariant kept == NonEmpty(chunks[..k])
    {
      assert chunks[..k + 1][..k] == chunks[..k];
      if |chunks[k]| > 0 {
        kept := kept + [chunks[k]];
      }
    }
    assert chunks[..|chunks|] == chunks;
  }

  /**
   * Dropping the empty encodings leaves exactly one chunk per slice: base64
   * of a non-empty slice is non-empty, of the empty tail empty.
   */
  lemma RawChunksFiltered(p: Primitives, data: seq<Byte>, size: nat)
    requires Lawful(p)
    requires size > 0
    ensures NonEmpty(Encoded(p, data, size) +
                     (if |data| == 0 then [p.b64encode([]), p.b64encode([])] else [p.b64encode([])]))
            == Encoded(p, data, size)
  {
    var enc := Encoded(p, data, size);
    var tail := if |data| == 0 then [p.b64encode([]), p.b64encode([])] else [p.b64encode([])];
    SlicesSizes(data, size);
    EncodedSlices(p, data, size);
    forall k | 0 <= k < |enc| ensures |enc[k]| > 0 {
      assert |Slices(data, size)[k]| > 0;
    }
    assert |p.b64encode([])| == 0;
    NonEmptyAppend(enc, tail);
  }

  /** Decoding each chunk's text and concatenating; None when one does not decode. */
  function DecodeChunks(p: Primitives, chunks: seq<seq<Byte>>): Option<seq<Byte>> {
    if |chunks| == 0 then Some([])
    else
      match (p.b64decode(Text(chunks[0])), DecodeChunks(p, chunks[1..]))
      case (Some(head), Some(tail)) => Some(head + tail)
      case _ => None
  }

  /**
   * The chunk list is a faithful transport of the stream: base64-decoding
   * the chunks and concatenating them in order gives the data back, and
   * each chunk decodes to between 1 and `size` bytes, all but the last to
   * exactly `size`.
   */
  lemma {:induction false} EncodedRoundTrip(p: Primitives, data: seq<Byte>, size: nat)
    requires Lawful(p)
    requires size > 0
    ensures DecodeChunks(p, Encoded(p, data, size)) == Some(data)
    ensures var enc := Encoded(p, data, size);
            forall k :: 0 <= k < |enc| ==>
              p.b64decode(Text(enc[k])).Some? &&
              0 < |p.b64decode(Text(enc[k])).value| <= size &&
              (k < |enc| - 1 ==> |p.b64decode(Text(enc[k])).value| == size)
    decreases |data|
  {
    var enc := Encoded(p, data, size);
    SlicesSizes(data, size);
    if |data| > 0 {
      var n := Min(size, |data|);
      EncodedRoundTrip(p, data[n..], size);
      assert enc[1..] == Encoded(p, data[n..], size);
      assert p.b64decode(Text(enc[0])) == Some(data[..n]);
      assert data[..n] + data[n..] == data;
    }
  }
}
