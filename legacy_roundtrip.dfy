/**
 * Decoding what `encode_file` of a command-line revision produced, with the
 * decoder of the same revision, gives the input back, accepted and without
 * a warning: the packets are written one per line with a blank line after
 * each, as `main` does.
 */
module LegacyRoundTrip {
  import opened Common
  import opened Fields
  import Scanner
  import Chunker
  import opened Legacy

  /** The body of a packet: its fields joined by `|`. */
  function Body(chunk: seq<Byte>, filename: Option<string>, checksum: string, seqnum: int, seqmax: int,
                compression: string): string
  {
    Join(PacketFields(chunk, filename, checksum, seqnum, seqmax, compression), '|')
  }

  /**
   * What a packet must carry for its body to survive the clean-up of
   * `decode`: a non-empty base64 chunk, and a checksum and compression type
   * without separators or white space; a file name without a separator or
   * a newline.
   */
  predicate Plain(chunk: seq<Byte>, filename: Option<string>, checksum: string, compression: string) {
    && |chunk| > 0
    && NoChar(Text(chunk), '|') && NoAsciiSpace(Text(chunk))
    && (forall i :: 0 <= i < |Text(chunk)| ==> !IsUnicodeSpace(Text(chunk)[i]))
    && NoChar(checksum, '|') && NoAsciiSpace(checksum)
    && NoChar(compression, '|') && NoAsciiSpace(compression)
    && (filename.Some? ==> NoChar(filename.value, '|') && NoChar(filename.value, '\n'))
  }

  /** No field holds a separator or a newline, and the fields `decode` reads hold no white space. */
  lemma FieldsArePlain(chunk: seq<Byte>, filename: Option<string>, checksum: string, seqnum: int, seqmax: int,
                       compression: string)
    requires Plain(chunk, filename, checksum, compression)
    ensures var f := PacketFields(chunk, filename, checksum, seqnum, seqmax, compression);
            var layout := LayoutFor(filename);
            && (forall k :: 0 <= k < |f| ==> NoChar(f[k], '|') && NoChar(f[k], '\n'))
            && NoAsciiSpace(f[CompressionField]) && NoAsciiSpace(f[SeqNumField])
            && NoAsciiSpace(f[layout.checksum]) && NoAsciiSpace(f[layout.chunk])
  {
    var f := PacketFields(chunk, filename, checksum, seqnum, seqmax, compression);
    PacketFieldsLayout(chunk, filename, checksum, seqnum, seqmax, compression);
    MsgIsPlain();
    IntToStrDigits(seqnum);
    IntToStrDigits(seqmax);
    forall k | 0 <= k < |f| ensures NoChar(f[k], '|') && NoChar(f[k], '\n') {
      if k == 5 {
        assert f[k] == IntToStr(seqmax);
      } else if k == 6 && filename.Some? {
        assert f[k] == filename.value;
      }
    }
  }

  /**
   * A packet body is left alone by `strip()`, holds no newline, and after
   * its white space is deleted splits into fields that have the
   * compression type, the sequence number, the checksum and the chunk
   * where the decoder of the same revision reads them.
   */
  lemma CleanedBody(chunk: seq<Byte>, filename: Option<string>, checksum: string, seqnum: int, seqmax: int,
                    compression: string)
    requires Plain(chunk, filename, checksum, compression)
    ensures var body := Body(chunk, filename, checksum, seqnum, seqmax, compression);
            var f := Segment(RemoveSpace(body));
            var layout := LayoutFor(filename);
            && body != "" && Strip(body) == body && NoChar(body, '\n')
            && |f| == layout.chunk + 1
            && f[CompressionField] == compression && f[SeqNumField] == IntToStr(seqnum)
            && f[layout.checksum] == checksum && f[layout.chunk] == Text(chunk)
  {
    var fields := PacketFields(chunk, filename, checksum, seqnum, seqmax, compression);
    var body := Body(chunk, filename, checksum, seqnum, seqmax, compression);
    var layout := LayoutFor(filename);
    PacketFieldsLayout(chunk, filename, checksum, seqnum, seqmax, compression);
    FieldsArePlain(chunk, filename, checksum, seqnum, seqmax, compression);
    MsgIsPlain();
    JoinEnds(fields, '|');
    StripUnchanged(body);
    JoinNoChar(fields, '|', '\n');
    SplitRemoveSpaceJoin(fields, '|');
  }

  /** The i-th chunk is the base64 text of the i-th slice of the compressed stream, non-empty and plain. */
  lemma ChunkAt(p: Primitives, data: seq<Byte>, chunksize: nat, compresslevel: int, compresstype: string, i: nat)
    requires Lawful(p)
    requires chunksize > 0
    requires i < |Chunks(p, data, chunksize, compresslevel, compresstype)|
    ensures var compressed := p.compress(CompressorNamed(compresstype), compresslevel, data);
            var chunks := Chunks(p, data, chunksize, compresslevel, compresstype);
            var slices := Chunker.Slices(compressed, chunksize);
            && |slices| == |chunks|
            && chunks[i] == p.b64encode(slices[i])
            && |chunks[i]| > 0
            && NoChar(Text(chunks[i]), '|') && NoAsciiSpace(Text(chunks[i]))
            && (forall k :: 0 <= k < |Text(chunks[i])| ==> !IsUnicodeSpace(Text(chunks[i])[k]))
  {
    var compressed := p.compress(CompressorNamed(compresstype), compresslevel, data);
    var slices := Chunker.Slices(compressed, chunksize);
    Chunker.EncodedSlices(p, compressed, chunksize);
    Chunker.SlicesSizes(compressed, chunksize);
    Base64TextIsPlain(p, slices[i]);
    assert |slices[i]| > 0;
  }

  /** The bodies of the packets `encode_file` returns, in order. */
  function PacketBodies(p: Primitives, data: seq<Byte>, chunksize: nat, compresslevel: int, compresstype: string,
                        filename: Option<string>): seq<string>
    requires chunksize > 0
  {
    var chunks := Chunks(p, data, chunksize, compresslevel, compresstype);
    seq(|chunks|, i requires 0 <= i < |chunks| =>
      Body(chunks[i], filename, p.sha1(data), i, |chunks| - 1, compresstype))
  }

  /** The transmitted packets are found again, each as its body. */
  lemma FoundAgain(p: Primitives, data: seq<Byte>, chunksize: nat, compresslevel: int, compresstype: string,
                   filename: Option<string>)
    requires Lawful(p)
    requires chunksize > 0
    requires NoChar(compresstype, '|') && NoAsciiSpace(compresstype)
    requires filename.Some? ==> NoChar(filename.value, '|') && NoChar(filename.value, '\n')
    ensures Scanner.Bodies(Scanner.Transmit(Packets(p, data, chunksize, compresslevel, compresstype, filename))) ==
            PacketBodies(p, data, chunksize, compresslevel, compresstype, filename)
  {
    var chunks := Chunks(p, data, chunksize, compresslevel, compresstype);
    var packets := Packets(p, data, chunksize, compresslevel, compresstype, filename);
    var bodies := PacketBodies(p, data, chunksize, compresslevel, compresstype, filename);
    var h := p.sha1(data);
    HexIsPlain(h);
    forall i | 0 <= i < |bodies|
      ensures packets[i] == Scanner.Open + bodies[i] + Scanner.Close
      ensures NoChar(bodies[i], '\n')
    {
      ChunkAt(p, data, chunksize, compresslevel, compresstype, i);
      CleanedBody(chunks[i], filename, h, i, |chunks| - 1, compresstype);
      assert packets[i] == EncodePacket(chunks[i], filename, h, i, |chunks| - 1, compresstype);
    }
    Scanner.TransmitBodies(packets, bodies);
  }

  /** Bodies that `strip()` leaves alone and that are not empty are all kept, white space deleted. */
  lemma {:induction false} NiceKeepsAll(bodies: seq<string>)
    requires forall k :: 0 <= k < |bodies| ==> bodies[k] != "" && Strip(bodies[k]) == bodies[k]
    ensures |Nice(bodies)| == |bodies|
    ensures forall k :: 0 <= k < |bodies| ==> Nice(bodies)[k] == RemoveSpace(bodies[k])
    decreases |bodies|
  {
    if |bodies| > 0 {
      var n := |bodies| - 1;
      var init := bodies[..n];
      var last := bodies[n];
      NiceKeepsAll(init);
      assert Strip(last) == last != "";
      var r := Nice(bodies);
      assert r == Nice(init) + [RemoveSpace(last)];
      forall k | 0 <= k < |bodies| ensures r[k] == RemoveSpace(bodies[k]) {
        if k < n {
          assert r[k] == Nice(init)[k] && init[k] == bodies[k];
        }
      }
    }
  }

  /**
   * The clean-up of `decode` keeps every packet body, and each splits into
   * fields with the values the decoder of the same revision reads.
   */
  lemma CleanedBodies(p: Primitives, data: seq<Byte>, chunksize: nat, compresslevel: int, compresstype: string,
                      filename: Option<string>)
    requires Lawful(p)
    requires chunksize > 0
    requires NoChar(compresstype, '|') && NoAsciiSpace(compresstype)
    requires filename.Some? ==> NoChar(filename.value, '|') && NoChar(filename.value, '\n')
    ensures var compressed := p.compress(CompressorNamed(compresstype), compresslevel, data);
            var slices := Chunker.Slices(compressed, chunksize);
            var b := Nice(PacketBodies(p, data, chunksize, compresslevel, compresstype, filename));
            var layout := LayoutFor(filename);
            && |b| == |slices|
            && forall i :: 0 <= i < |b| ==>
                 && |Segment(b[i])| == layout.chunk + 1
                 && Segment(b[i])[CompressionField] == compresstype
                 && Segment(b[i])[SeqNumField] == IntToStr(i)
                 && Segment(b[i])[layout.checksum] == p.sha1(data)
                 && Segment(b[i])[layout.chunk] == Text(p.b64encode(slices[i]))
  {
    var chunks := Chunks(p, data, chunksize, compresslevel, compresstype);
    var compressed := p.compress(CompressorNamed(compresstype), compresslevel, data);
    var slices := Chunker.Slices(compressed, chunksize);
    var bodies := PacketBodies(p, data, chunksize, compresslevel, compresstype, filename);
    var layout := LayoutFor(filename);
    var h := p.sha1(data);
    HexIsPlain(h);
    Chunker.EncodedSlices(p, compressed, chunksize);
    forall i | 0 <= i < |bodies|
      ensures bodies[i] != "" && Strip(bodies[i]) == bodies[i]
      ensures var f := Segment(RemoveSpace(bodies[i]));
              && |f| == layout.chunk + 1
              && f[CompressionField] == compresstype && f[SeqNumField] == IntToStr(i)
              && f[layout.checksum] == h && f[layout.chunk] == Text(p.b64encode(slices[i]))
    {
      ChunkAt(p, data, chunksize, compresslevel, compresstype, i);
      CleanedBody(chunks[i], filename, h, i, |chunks| - 1, compresstype);
    }
    NiceKeepsAll(bodies);
  }

  /** One iteration over the body of an encoded packet: the slice is appended, nothing is logged. */
  lemma StepRoundTrip(p: Primitives, layout: Layout, payload: seq<Byte>, i: nat, body: string, slice: seq<Byte>)
    requires Lawful(p)
    requires layout.chunk > SeqNumField
    requires |Segment(body)| == layout.chunk + 1
    requires Segment(body)[SeqNumField] == IntToStr(i)
    requires Segment(body)[layout.chunk] == Text(p.b64encode(slice))
    ensures Step(p, layout, payload, [], i, body) == Going(payload + slice, [])
  {
  }

  /** After k bodies of an encoded file the payload is the first k slices and nothing is logged. */
  lemma {:induction false} RoundTripFold(p: Primitives, layout: Layout, b: seq<string>, slices: seq<seq<Byte>>,
                                         k: nat)
    requires Lawful(p)
    requires layout.chunk > SeqNumField
    requires |b| == |slices|
    requires forall i :: 0 <= i < |b| ==>
               && |Segment(b[i])| == layout.chunk + 1
               && Segment(b[i])[SeqNumField] == IntToStr(i)
               && Segment(b[i])[layout.chunk] == Text(p.b64encode(slices[i]))
    requires k <= |b|
    ensures Fold(p, layout, b, k) == Going(Chunker.Flatten(slices[..k]), [])
    decreases k
  {
    if k > 0 {
      var i := k - 1;
      RoundTripFold(p, layout, b, slices, i);
      var prev := Fold(p, layout, b, i);
      assert Fold(p, layout, b, k) == Step(p, layout, prev.payload, prev.log, i, b[i]);
      StepRoundTrip(p, layout, prev.payload, i, b[i], slices[i]);
      Chunker.FlattenSnoc(slices, i);
    }
  }

  /** The loop over the cleaned bodies of an encoded file rebuilds the compressed stream and logs nothing. */
  lemma LoopRoundTrip(p: Primitives, data: seq<Byte>, chunksize: nat, compresslevel: int, compresstype: string,
                      filename: Option<string>)
    requires Lawful(p)
    requires chunksize > 0
    requires NoChar(compresstype, '|') && NoAsciiSpace(compresstype)
    requires filename.Some? ==> NoChar(filename.value, '|') && NoChar(filename.value, '\n')
    ensures var b := Nice(PacketBodies(p, data, chunksize, compresslevel, compresstype, filename));
            Fold(p, LayoutFor(filename), b, |b|) ==
            Going(p.compress(CompressorNamed(compresstype), compresslevel, data), [])
  {
    var layout := LayoutFor(filename);
    var compressed := p.compress(CompressorNamed(compresstype), compresslevel, data);
    var slices := Chunker.Slices(compressed, chunksize);
    var b := Nice(PacketBodies(p, data, chunksize, compresslevel, compresstype, filename));
    Chunker.SlicesFlatten(compressed, chunksize);
    CleanedBodies(p, data, chunksize, compresslevel, compresstype, filename);
    assert slices[..|b|] == slices;
    RoundTripFold(p, layout, b, slices, |b|);
  }

  /** The end of `decode` on the first body of an encoded file: the input, accepted, nothing logged. */
  lemma FinishRoundTrip(p: Primitives, layout: Layout, b: seq<string>, compressed: seq<Byte>, data: seq<Byte>,
                        compresstype: string)
    requires layout.chunk > layout.checksum > CompressionField
    requires |b| > 0 && |Segment(b[0])| == layout.chunk + 1
    requires Segment(b[0])[CompressionField] == compresstype
    requires Segment(b[0])[layout.checksum] == p.sha1(data)
    requires p.decompress(CompressorNamed(compresstype), compressed) == Some(data)
    ensures Finish(p, layout, b, compressed, []) == Report(Done(data, true), [])
  {
  }

  /**
   * The round trip of the command-line revisions: for any input, chunk
   * size, compression level the compressor accepts (`Lawful` lets it
   * accept every level), a compression type without separators or
   * white space, and a file name (bitshuffle.py) without a separator or a
   * newline, the decoder of the same layout gives the input back from the
   * transmitted packets, accepted, with no warning.
   */
  lemma RoundTrip(p: Primitives, data: seq<Byte>, chunksize: nat, compresslevel: int, compresstype: string,
                  filename: Option<string>)
    requires Lawful(p)
    requires chunksize > 0
    requires NoChar(compresstype, '|') && NoAsciiSpace(compresstype)
    requires filename.Some? ==> NoChar(filename.value, '|') && NoChar(filename.value, '\n')
    ensures DecodeSpec(p, LayoutFor(filename),
                       Scanner.Transmit(Packets(p, data, chunksize, compresslevel, compresstype, filename))) ==
            Report(Done(data, true), [])
  {
    var layout := LayoutFor(filename);
    var compressed := p.compress(CompressorNamed(compresstype), compresslevel, data);
    var chunks := Chunks(p, data, chunksize, compresslevel, compresstype);
    var bodies := PacketBodies(p, data, chunksize, compresslevel, compresstype, filename);
    var b := Nice(bodies);
    Chunker.EncodedSlices(p, compressed, chunksize);
    Chunker.SlicesSizes(compressed, chunksize);
    assert |chunks| > 0;
    CleanedBodies(p, data, chunksize, compresslevel, compresstype, filename);
    LoopRoundTrip(p, data, chunksize, compresslevel, compresstype, filename);
    FinishRoundTrip(p, layout, b, compressed, data, compresstype);
    FoundAgain(p, data, chunksize, compresslevel, compresstype, filename);
  }
}
