/**
 * Decoding what `encode_file` produced gives the input back, accepted and
 * without a warning (bitshuffle/library.py): the packets are written one per
 * line with a blank line after each, as the command-line tool does.
 */
module LibraryRoundTrip {
  import opened Common
  import opened Fields
  import Scanner
  import Chunker
  import opened Library

  /** `str(i)` holds no separator and no white space. */
  lemma IntToStrIsPlain(i: int)
    ensures NoChar(IntToStr(i), '|') && NoAsciiSpace(IntToStr(i)) && NoChar(IntToStr(i), '\n')
  {
    IntToStrDigits(i);
  }

  /** Every field after the message is free of separators and white space. */
  lemma TailFieldsArePlain(p: Primitives, chunk: seq<Byte>, seqnum: int, seqmax: int, compress: Compressor,
                           msg: string, fileHash: Option<string>)
    requires Lawful(p)
    requires Base64Plain(chunk)
    requires fileHash.Some? ==> NoChar(fileHash.value, '|') && NoAsciiSpace(fileHash.value)
    ensures var fields := PacketFields(p, chunk, seqnum, seqmax, compress, msg, fileHash);
            forall k :: 1 <= k < |fields| ==> NoChar(fields[k], '|') && NoAsciiSpace(fields[k])
  {
    var fields := PacketFields(p, chunk, seqnum, seqmax, compress, msg, fileHash);
    IntToStrIsPlain(seqnum);
    IntToStrIsPlain(seqmax);
    assert fields[1] == CompatLevel && fields[2] == EncodingName && fields[3] == ModuleName(compress);
    assert fields[4] == IntToStr(seqnum) && fields[5] == IntToStr(seqmax);
    assert fields[6] == ShaSum(p, chunk) && fields[7] == Text(chunk);
    assert |fields| == 9 ==> fields[8] == fileHash.value;
  }

  /** A body of two fields or more is not blank: it holds a separator. */
  lemma JoinedNotBlank(fields: seq<string>)
    requires |fields| > 1
    ensures Strip(Join(fields, '|')) != ""
  {
    assert Join(fields, '|')[|fields[0]|] == '|';
    StripEmpty(Join(fields, '|'));
  }

  /**
   * Deleting white space from joined fields, of which only the first may
   * hold white space, and splitting again gives the fields back with the
   * first one's white space deleted.
   */
  lemma CleanedJoin(fields: seq<string>)
    requires |fields| > 1
    requires NoChar(fields[0], '|')
    requires forall k :: 1 <= k < |fields| ==> NoChar(fields[k], '|') && NoAsciiSpace(fields[k])
    ensures Strip(Join(fields, '|')) != ""
    ensures Split(RemoveSpace(Join(fields, '|')), '|') == [RemoveSpace(fields[0])] + fields[1..]
  {
    JoinedNotBlank(fields);
    SplitRemoveSpaceJoin(fields, '|');
    RemoveSpaceEachTail(fields);
  }

  /**
   * The body of one packet survives the clean-up of `decode` and splits
   * into its fields again, the message with its white space deleted.
   */
  lemma CleanedBody(p: Primitives, chunk: seq<Byte>, seqnum: int, seqmax: int, compress: Compressor,
                    msg: string, fileHash: Option<string>)
    requires Lawful(p)
    requires NoChar(msg, '|')
    requires Base64Plain(chunk)
    requires fileHash.Some? ==> NoChar(fileHash.value, '|') && NoAsciiSpace(fileHash.value)
    ensures var body := Join(PacketFields(p, chunk, seqnum, seqmax, compress, msg, fileHash), '|');
            && Strip(body) != ""
            && Split(RemoveSpace(body), '|') ==
               PacketFields(p, chunk, seqnum, seqmax, compress, RemoveSpace(msg), fileHash)
  {
    var fields := PacketFields(p, chunk, seqnum, seqmax, compress, msg, fileHash);
    TailFieldsArePlain(p, chunk, seqnum, seqmax, compress, msg, fileHash);
    CleanedJoin(fields);
    assert fields[1..] == FieldsAfterMessage(p, chunk, seqnum, seqmax, compress, fileHash);
  }

  /** A packet body holds a newline only if the message does. */
  lemma BodyHasNoNewline(p: Primitives, chunk: seq<Byte>, seqnum: int, seqmax: int, compress: Compressor,
                         msg: string, fileHash: Option<string>)
    requires Lawful(p)
    requires NoChar(msg, '\n')
    requires Base64Plain(chunk)
    requires fileHash.Some? ==> NoChar(fileHash.value, '\n')
    ensures NoChar(Join(PacketFields(p, chunk, seqnum, seqmax, compress, msg, fileHash), '|'), '\n')
  {
    IntToStrIsPlain(seqnum);
    IntToStrIsPlain(seqmax);
    JoinNoChar(PacketFields(p, chunk, seqnum, seqmax, compress, msg, fileHash), '|', '\n');
  }

  /** Bodies none of which is blank are all kept, each with its white space deleted. */
  lemma {:induction false} CleanKeepsAll(bodies: seq<string>)
    requires forall k :: 0 <= k < |bodies| ==> Strip(bodies[k]) != ""
    ensures Clean(bodies) == RemoveSpaceEach(bodies)
    decreases |bodies|
  {
    if |bodies| > 0 {
      CleanKeepsAll(bodies[1..]);
      assert RemoveSpaceEach(bodies)[1..] == RemoveSpaceEach(bodies[1..]);
    }
  }

  /**
   * One iteration over the body of an encoded packet: nothing is logged, the
   * decoded chunk is the slice that was encoded, and the file hash is set.
   */
  lemma StepRoundTrip(p: Primitives, st: LibState, i: nat, n: nat, body: string, chunk: seq<Byte>,
                      slice: seq<Byte>, compress: Compressor, m: string, h: string)
    requires Lawful(p)
    requires i <= n
    requires chunk == p.b64encode(slice)
    requires Split(body, '|') == PacketFields(p, chunk, i, n, compress, m, FileHashFor(i, n, h))
    requires st.wrong == 0 && st.log == [] && st.fileHash == (if i == 0 then None else Some(h))
    ensures Step(p, st, i, body) ==
            Running(st.(payload := st.payload + slice, fileHash := Some(h), last := Some(Split(body, '|'))))
  {
    var f := Split(body, '|');
    PacketFieldsLayout(p, chunk, i, n, compress, m, FileHashFor(i, n, h));
    Base64IsAscii(p, slice);
    AsciiRoundTrip(chunk);
    assert AsciiEncode(f[ChunkField]) == Some(chunk);
    assert p.b64decode(f[ChunkField]) == Some(slice);
  }

  /**
   * Over the bodies of an encoded file the loop of `decode` never warns: after
   * k bodies the payload is the first k slices of the compressed stream, no
   * chunk is wrong and the file hash has been taken from the first body.
   */
  lemma {:induction false} RoundTripFold(p: Primitives, b: seq<string>, chunks: seq<seq<Byte>>,
                                         slices: seq<seq<Byte>>, compress: Compressor, m: string, h: string,
                                         n: nat, k: nat)
    requires Lawful(p)
    requires |b| == |chunks| == |slices| == n + 1
    requires forall i :: 0 <= i < |chunks| ==> chunks[i] == p.b64encode(slices[i])
    requires forall i :: 0 <= i < |b| ==>
               Split(b[i], '|') == PacketFields(p, chunks[i], i, n, compress, m, FileHashFor(i, n, h))
    requires k <= |b|
    ensures Fold(p, b, k) ==
            Running(LibState(Chunker.Flatten(slices[..k]), 0, if k == 0 then None else Some(h), [],
                             if k == 0 then None else Some(Split(b[k - 1], '|'))))
    decreases k
  {
    if k > 0 {
      var i := k - 1;
      RoundTripFold(p, b, chunks, slices, compress, m, h, n, i);
      var st := Fold(p, b, i).st;
      FoldNext(p, b, k);
      StepRoundTrip(p, st, i, n, b[i], chunks[i], slices[i], compress, m, h);
      Chunker.FlattenSnoc(slices, i);
    }
  }

  /**
   * The bodies of the packets `encode_file` returns, in order: each packet
   * is its body between the start and the end marker.
   */
  function PacketBodies(p: Primitives, data: seq<Byte>, chunksize: nat, compresslevel: int, compress: Compressor,
                        msg: string): (r: seq<string>)
    requires chunksize > 0
    ensures var packets := Packets(p, data, chunksize, compresslevel, compress, msg);
            |r| == |packets| &&
            forall i :: 0 <= i < |r| ==> packets[i] == Scanner.Open + r[i] + Scanner.Close
    ensures var chunks := Chunks(p, data, chunksize, compresslevel, compress);
            |r| == |chunks| &&
            forall i :: 0 <= i < |r| ==>
              r[i] == Join(PacketFields(p, chunks[i], i, |chunks| - 1, compress, msg,
                                        FileHashFor(i, |chunks| - 1, ShaSum(p, data))), '|')
  {
    var chunks := Chunks(p, data, chunksize, compresslevel, compress);
    seq(|chunks|, i requires 0 <= i < |chunks| =>
      Join(PacketFields(p, chunks[i], i, |chunks| - 1, compress, msg, FileHashFor(i, |chunks| - 1, ShaSum(p, data))), '|'))
  }

  /** The transmitted packets are found again, each as its body. */
  lemma FoundAgain(p: Primitives, data: seq<Byte>, chunksize: nat, compresslevel: int, compress: Compressor,
                   msg: string)
    requires Lawful(p)
    requires chunksize > 0
    requires NoChar(msg, '\n')
    ensures Scanner.Bodies(Scanner.Transmit(Packets(p, data, chunksize, compresslevel, compress, msg))) ==
            PacketBodies(p, data, chunksize, compresslevel, compress, msg)
  {
    var chunks := Chunks(p, data, chunksize, compresslevel, compress);
    var packets := Packets(p, data, chunksize, compresslevel, compress, msg);
    var bodies := PacketBodies(p, data, chunksize, compresslevel, compress, msg);
    var h := ShaSum(p, data);
    ChunksArePlain(p, data, chunksize, compresslevel, compress);
    forall i | 0 <= i < |bodies|
      ensures packets[i] == Scanner.Open + bodies[i] + Scanner.Close
      ensures NoChar(bodies[i], '\n')
    {
      BodyHasNoNewline(p, chunks[i], i, |chunks| - 1, compress, msg, FileHashFor(i, |chunks| - 1, h));
    }
    Scanner.TransmitBodies(packets, bodies);
  }

  /** The clean-up of `decode` keeps every packet body and splits it into its fields. */
  lemma CleanedPacketBodies(p: Primitives, data: seq<Byte>, chunksize: nat, compresslevel: int,
                            compress: Compressor, msg: string)
    requires Lawful(p)
    requires chunksize > 0
    requires NoChar(msg, '|')
    ensures var bodies := PacketBodies(p, data, chunksize, compresslevel, compress, msg);
            var chunks := Chunks(p, data, chunksize, compresslevel, compress);
            && Clean(bodies) == RemoveSpaceEach(bodies)
            && forall i :: 0 <= i < |bodies| ==>
                 Split(RemoveSpaceEach(bodies)[i], '|') ==
                 PacketFields(p, chunks[i], i, |chunks| - 1, compress, RemoveSpace(msg),
                              FileHashFor(i, |chunks| - 1, ShaSum(p, data)))
  {
    var chunks := Chunks(p, data, chunksize, compresslevel, compress);
    var bodies := PacketBodies(p, data, chunksize, compresslevel, compress, msg);
    var h := ShaSum(p, data);
    ChunksArePlain(p, data, chunksize, compresslevel, compress);
    forall i | 0 <= i < |bodies|
      ensures Strip(bodies[i]) != ""
      ensures Split(RemoveSpace(bodies[i]), '|') ==
              PacketFields(p, chunks[i], i, |chunks| - 1, compress, RemoveSpace(msg), FileHashFor(i, |chunks| - 1, h))
    {
      CleanedBody(p, chunks[i], i, |chunks| - 1, compress, msg, FileHashFor(i, |chunks| - 1, h));
    }
    CleanKeepsAll(bodies);
  }

  /** After the last body: the compressor named in it restores the input, accepted. */
  lemma FinishRoundTrip(p: Primitives, data: seq<Byte>, compresslevel: int, compress: Compressor,
                        st: LibState, f: seq<string>)
    requires Lawful(p)
    requires |f| > CompressionField && f[CompressionField] == ModuleName(compress)
    requires st.payload == p.compress(compress, compresslevel, data)
    requires st.wrong == 0 && st.log == [] && st.last == Some(f)
    ensures Finish(p, st) == Report(Done(data, true), [])
  {
  }

  /** The last cleaned body of an encoded file names the compressor that was used. */
  lemma LastBodyNamesCompressor(p: Primitives, data: seq<Byte>, chunksize: nat, compresslevel: int,
                                compress: Compressor, msg: string)
    requires Lawful(p)
    requires chunksize > 0
    requires NoChar(msg, '|')
    ensures var b := RemoveSpaceEach(PacketBodies(p, data, chunksize, compresslevel, compress, msg));
            && |b| > 0
            && |Split(b[|b| - 1], '|')| > CompressionField
            && Split(b[|b| - 1], '|')[CompressionField] == ModuleName(compress)
  {
    var chunks := Chunks(p, data, chunksize, compresslevel, compress);
    CleanedPacketBodies(p, data, chunksize, compresslevel, compress, msg);
    ChunksArePlain(p, data, chunksize, compresslevel, compress);
    var n := |chunks| - 1;
    PacketFieldsLayout(p, chunks[n], n, n, compress, RemoveSpace(msg), FileHashFor(n, n, ShaSum(p, data)));
  }

  /** The whole loop over the cleaned bodies of an encoded file. */
  lemma LoopRoundTrip(p: Primitives, data: seq<Byte>, chunksize: nat, compresslevel: int, compress: Compressor,
                      msg: string)
    requires Lawful(p)
    requires chunksize > 0
    requires NoChar(msg, '|')
    ensures var b := RemoveSpaceEach(PacketBodies(p, data, chunksize, compresslevel, compress, msg));
            && |b| > 0
            && Fold(p, b, |b|) == Running(LibState(p.compress(compress, compresslevel, data), 0,
                                                   Some(ShaSum(p, data)), [], Some(Split(b[|b| - 1], '|'))))
  {
    var compressed := p.compress(compress, compresslevel, data);
    var chunks := Chunks(p, data, chunksize, compresslevel, compress);
    var slices := Chunker.Slices(compressed, chunksize);
    var b := RemoveSpaceEach(PacketBodies(p, data, chunksize, compresslevel, compress, msg));
    CleanedPacketBodies(p, data, chunksize, compresslevel, compress, msg);
    ChunksArePlain(p, data, chunksize, compresslevel, compress);
    Chunker.EncodedSlices(p, compressed, chunksize);
    assert |slices| == |chunks| == |b|;
    assert slices[..|b|] == slices;
    Chunker.SlicesFlatten(compressed, chunksize);
    RoundTripFold(p, b, chunks, slices, compress, RemoveSpace(msg), ShaSum(p, data), |chunks| - 1, |b|);
  }

  /**
   * The round trip of the canonical codec: for any input, chunk size,
   * compression level the compressor accepts (`Lawful` lets it accept
   * every level) and compressor, and any message without a `|` or a
   * newline, decoding the transmitted packets gives the input back,
   * accepted, with no warning.
   */
  lemma RoundTrip(p: Primitives, data: seq<Byte>, chunksize: nat, compresslevel: int, compress: Compressor,
                  msg: string)
    requires Lawful(p)
    requires chunksize > 0
    requires NoChar(msg, '|') && NoChar(msg, '\n')
    ensures DecodeSpec(p, Scanner.Transmit(Packets(p, data, chunksize, compresslevel, compress, msg))) ==
            Report(Done(data, true), [])
  {
    var message := Scanner.Transmit(Packets(p, data, chunksize, compresslevel, compress, msg));
    var bodies := PacketBodies(p, data, chunksize, compresslevel, compress, msg);
    FoundAgain(p, data, chunksize, compresslevel, compress, msg);
    CleanedPacketBodies(p, data, chunksize, compresslevel, compress, msg);
    var b := RemoveSpaceEach(bodies);
    LoopRoundTrip(p, data, chunksize, compresslevel, compress, msg);
    LastBodyNamesCompressor(p, data, chunksize, compresslevel, compress, msg);
    assert DecodeSpec(p, message) == Finish(p, Fold(p, b, |b|).st);
    FinishRoundTrip(p, data, compresslevel, compress, Fold(p, b, |b|).st, Split(b[|b| - 1], '|'));
  }
}
