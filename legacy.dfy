/**
 * What the two command-line revisions (bitshuffle/bitshuffle.py and the
 * root bitshuffle.py) share line for line: `encode_data`, `decode` and
 * `verify`.  They differ only in where a body keeps the file checksum and
 * the chunk, which `Layout` records.  The file checksum is the SHA-1 of the
 * whole input and sits in every packet; there is no per-chunk hash.
 */
module Legacy {
  import opened Common
  import opened Fields
  import Scanner
  import Chunker

  /** The text both revisions put in field 0 (written in pieces to keep proofs about it small). */
  const Msg: string :=
    "This is encoded with BitShuffle, " + "which you can download " + "from https://github.com/" +
    "charlesdaniels/bitshuffle"

  /** The message holds no separator and no newline, and starts with a letter. */
  lemma MsgIsPlain()
    ensures NoChar(Msg, '|') && NoChar(Msg, '\n')
    ensures |Msg| > 0 && !IsUnicodeSpace(Msg[0])
  {
    var a, b, c, d := "This is encoded with BitShuffle, ", "which you can download ", "from https://github.com/",
                      "charlesdaniels/bitshuffle";
    assert NoChar(a, '|') && NoChar(a, '\n');
    assert NoChar(b, '|') && NoChar(b, '\n');
    assert NoChar(c, '|') && NoChar(c, '\n');
    assert NoChar(d, '|') && NoChar(d, '\n');
    NoCharAppend(a, b, '|');
    NoCharAppend(a + b, c, '|');
    NoCharAppend(a + b + c, d, '|');
    NoCharAppend(a, b, '\n');
    NoCharAppend(a + b, c, '\n');
    NoCharAppend(a + b + c, d, '\n');
  }

  lemma NoCharAppend(a: string, b: string, c: char)
    requires NoChar(a, c) && NoChar(b, c)
    ensures NoChar(a + b, c)
  {
  }

  // Field positions read by `decode`, the same in both revisions.
  const CompressionField := 3
  const SeqNumField := 4

  /** Where a revision's bodies keep the file checksum and the chunk. */
  datatype Layout = Layout(checksum: nat, chunk: nat)

  /** bitshuffle/bitshuffle.py: `range(8)`, no file name field. */
  const Unnamed := Layout(6, 7)
  /** bitshuffle.py: `range(9)`, the file name in field 6. */
  const Named := Layout(7, 8)

  /** The layout of packets written with or without a file name. */
  function LayoutFor(filename: Option<string>): Layout {
    if filename.Some? then Named else Unnamed
  }

  /** The compressor a `compresstype` string selects: bz2 for "bz2", gzip for anything else. */
  function CompressorNamed(name: string): (c: Compressor)
    ensures c == Bz2 <==> name == "bz2"
  {
    if name == "bz2" then Bz2 else Gzip
  }

  /** The chunks `encode_data` returns. */
  function Chunks(p: Primitives, data: seq<Byte>, chunksize: nat, compresslevel: int, compresstype: string)
    : seq<seq<Byte>>
    requires chunksize > 0
  {
    Chunker.Encoded(p, p.compress(CompressorNamed(compresstype), compresslevel, data), chunksize)
  }

  /**
   * `encode_data`: compress with the named compressor, cut into `chunksize`
   * slices, base64-encode each, and keep the non-empty encodings.  The
   * chunks decode, in order, to the compressed stream.
   */
  method EncodeData(p: Primitives, data: seq<Byte>, chunksize: nat, compresslevel: int, compresstype: string)
    returns (chunks: seq<seq<Byte>>)
    requires Lawful(p)
    requires chunksize > 0
    ensures chunks == Chunks(p, data, chunksize, compresslevel, compresstype)
    ensures Chunker.DecodeChunks(p, chunks) ==
            Some(p.compress(CompressorNamed(compresstype), compresslevel, data))
    ensures |chunks| > 0
  {
    var compressed;
    if compresstype == "bz2" {
      compressed := p.compress(Bz2, compresslevel, data);
    } else {
      compressed := p.compress(Gzip, compresslevel, data);
    }
    var raw := Chunker.RawChunks(p, compressed, chunksize);
    chunks := Chunker.KeepNonEmpty(raw);
    Chunker.RawChunksFiltered(p, compressed, chunksize);
    Chunker.EncodedRoundTrip(p, compressed, chunksize);
    Chunker.SlicesSizes(compressed, chunksize);
    Chunker.EncodedSlices(p, compressed, chunksize);
  }

  /**
   * The fields of a packet: the message, compatibility level "1", "base64",
   * the compression type, the sequence numbers, the file name (bitshuffle.py
   * only), the checksum and the chunk text.
   */
  function PacketFields(chunk: seq<Byte>, filename: Option<string>, checksum: string, seqnum: int, seqmax: int,
                        compression: string): seq<string>
  {
    [Msg, "1", "base64", compression, IntToStr(seqnum), IntToStr(seqmax)] +
    (if filename.Some? then [filename.value] else []) + [checksum, Text(chunk)]
  }

  /** Where each value sits among the fields, as the decoder of the same revision reads them. */
  lemma PacketFieldsLayout(chunk: seq<Byte>, filename: Option<string>, checksum: string, seqnum: int, seqmax: int,
                           compression: string)
    ensures var f := PacketFields(chunk, filename, checksum, seqnum, seqmax, compression);
            var layout := LayoutFor(filename);
            && |f| == layout.chunk + 1 && layout.checksum == layout.chunk - 1
            && f[0] == Msg && f[1] == "1" && f[2] == "base64" && f[CompressionField] == compression
            && f[SeqNumField] == IntToStr(seqnum) && f[5] == IntToStr(seqmax)
            && (filename.Some? ==> f[6] == filename.value)
            && f[layout.checksum] == checksum && f[layout.chunk] == Text(chunk)
  {
  }

  /**
   * `encode_packet`: the fields joined by `|` inside `((<<` and `>>))`.
   * bitshuffle/bitshuffle.py passes no file name, bitshuffle.py one.
   */
  function EncodePacket(chunk: seq<Byte>, filename: Option<string>, checksum: string, seqnum: int, seqmax: int,
                        compression: string): (r: string)
    ensures |r| >= 8 && r[..4] == Scanner.Open && r[|r| - 4..] == Scanner.Close
  {
    Scanner.Open + Join(PacketFields(chunk, filename, checksum, seqnum, seqmax, compression), '|') + Scanner.Close
  }

  /**
   * When neither the compression type, the file name, the checksum nor the
   * chunk text holds a `|`, splitting a packet's body gives back its fields.
   */
  lemma EncodePacketFields(chunk: seq<Byte>, filename: Option<string>, checksum: string, seqnum: int, seqmax: int,
                           compression: string)
    requires NoChar(Text(chunk), '|') && NoChar(checksum, '|') && NoChar(compression, '|')
    requires filename.Some? ==> NoChar(filename.value, '|')
    ensures var r := EncodePacket(chunk, filename, checksum, seqnum, seqmax, compression);
            Split(r[4..|r| - 4], '|') == PacketFields(chunk, filename, checksum, seqnum, seqmax, compression)
  {
    var fields := PacketFields(chunk, filename, checksum, seqnum, seqmax, compression);
    var r := EncodePacket(chunk, filename, checksum, seqnum, seqmax, compression);
    assert r[4..|r| - 4] == Join(fields, '|');
    MsgIsPlain();
    PacketFieldsLayout(chunk, filename, checksum, seqnum, seqmax, compression);
    IntToStrDigits(seqnum);
    IntToStrDigits(seqmax);
    assert NoChar(IntToStr(seqnum), '|') && NoChar(IntToStr(seqmax), '|');
    SplitJoin(fields, '|');
  }

  /** The packets for `chunks`, numbered 0 .. n - 1, all with the same checksum. */
  function PacketsOf(chunks: seq<seq<Byte>>, filename: Option<string>, checksum: string, compression: string)
    : seq<string>
  {
    seq(|chunks|, i requires 0 <= i < |chunks| =>
      EncodePacket(chunks[i], filename, checksum, i, |chunks| - 1, compression))
  }

  /** The packets `encode_file` returns for `data`. */
  function Packets(p: Primitives, data: seq<Byte>, chunksize: nat, compresslevel: int, compresstype: string,
                   filename: Option<string>): seq<string>
    requires chunksize > 0
  {
    PacketsOf(Chunks(p, data, chunksize, compresslevel, compresstype), filename, p.sha1(data), compresstype)
  }

  /**
   * `encode_file` over the input bytes: take the SHA-1 of the input, encode
   * it, and number the packets 0 .. n - 1 with seqmax n - 1.
   */
  method EncodeFile(p: Primitives, data: seq<Byte>, chunksize: nat, compresslevel: int, compresstype: string,
                    filename: Option<string>)
    returns (packets: seq<string>)
    requires Lawful(p)
    requires chunksize > 0
    ensures packets == Packets(p, data, chunksize, compresslevel, compresstype, filename)
    ensures |packets| > 0
  {
    var checksum := p.sha1(data);
    var chunks := EncodeData(p, data, chunksize, compresslevel, compresstype);
    packets := NumberChunks(chunks, filename, checksum, compresstype);
  }

  /** The `for` loop of `encode_file`: one packet per chunk, numbered in order. */
  method NumberChunks(chunks: seq<seq<Byte>>, filename: Option<string>, checksum: string, compresstype: string)
    returns (packets: seq<string>)
    ensures packets == PacketsOf(chunks, filename, checksum, compresstype)
  {
    ghost var all := PacketsOf(chunks, filename, checksum, compresstype);
    var seqmax := |chunks| - 1;
    var seqnum := 0;
    packets := [];
    while seqnum < |chunks|
      invariant 0 <= seqnum <= |chunks| == |all|
      invariant |packets| == seqnum && forall j :: 0 <= j < seqnum ==> packets[j] == all[j]
    {
      var packet := EncodePacket(chunks[seqnum], filename, checksum, seqnum, seqmax, compresstype);
      assert all[seqnum] == EncodePacket(chunks[seqnum], filename, checksum, seqnum, |chunks| - 1, compresstype);
      packets := packets + [packet];
      seqnum := seqnum + 1;
    }
  }

  /** Base64 text holds no separator and no white space. */
  lemma Base64TextIsPlain(p: Primitives, d: seq<Byte>)
    requires Lawful(p)
    ensures var t := Text(p.b64encode(d));
            NoChar(t, '|') && NoAsciiSpace(t) && forall i :: 0 <= i < |t| ==> !IsUnicodeSpace(t[i])
  {
    var e := p.b64encode(d);
    var t := Text(e);
    forall i | 0 <= i < |t| ensures t[i] != '|' && !IsAsciiSpace(t[i]) && !IsUnicodeSpace(t[i]) {
      assert IsBase64Byte(e[i]);
      assert t[i] as int == e[i];
    }
  }

  /** A hex digest holds no separator and no white space. */
  lemma HexIsPlain(s: string)
    requires IsHex(s)
    ensures NoChar(s, '|') && NoAsciiSpace(s)
  {
    forall i | 0 <= i < |s| ensures s[i] != '|' && !IsAsciiSpace(s[i]) {
      assert IsHexDigit(s[i]);
    }
  }

  /** The fields of an encoded packet, read back by splitting its body. */
  lemma SplitPacketLayout(chunk: seq<Byte>, filename: Option<string>, checksum: string, seqnum: int, seqmax: int,
                          compression: string)
    requires NoChar(Text(chunk), '|') && NoChar(checksum, '|') && NoChar(compression, '|')
    requires filename.Some? ==> NoChar(filename.value, '|')
    ensures var pk := EncodePacket(chunk, filename, checksum, seqnum, seqmax, compression);
            var fields := Split(pk[4..|pk| - 4], '|');
            var layout := LayoutFor(filename);
            && |fields| == (if filename.Some? then 9 else 8)
            && fields[CompressionField] == compression
            && fields[SeqNumField] == IntToStr(seqnum)
            && fields[5] == IntToStr(seqmax)
            && fields[layout.checksum] == checksum
  {
    EncodePacketFields(chunk, filename, checksum, seqnum, seqmax, compression);
    PacketFieldsLayout(chunk, filename, checksum, seqnum, seqmax, compression);
  }

  /** The i-th packet of an input, and the chunk it carries is plain base64 text. */
  lemma PacketAt(p: Primitives, data: seq<Byte>, chunksize: nat, compresslevel: int, compresstype: string,
                 filename: Option<string>, i: nat)
    requires Lawful(p)
    requires chunksize > 0
    requires i < |Chunks(p, data, chunksize, compresslevel, compresstype)|
    ensures var chunks := Chunks(p, data, chunksize, compresslevel, compresstype);
            var pkts := Packets(p, data, chunksize, compresslevel, compresstype, filename);
            && |pkts| == |chunks|
            && pkts[i] == EncodePacket(chunks[i], filename, p.sha1(data), i, |chunks| - 1, compresstype)
            && NoChar(Text(chunks[i]), '|') && NoAsciiSpace(Text(chunks[i]))
            && forall k :: 0 <= k < |chunks[i]| ==> !IsUnicodeSpace(Text(chunks[i])[k])
  {
    var compressed := p.compress(CompressorNamed(compresstype), compresslevel, data);
    Chunker.EncodedSlices(p, compressed, chunksize);
    Base64TextIsPlain(p, Chunker.Slices(compressed, chunksize)[i]);
  }

  /**
   * The i-th of the n packets of an input: sequence number i, seqmax n - 1,
   * the input's SHA-1 as checksum and the compression type as given, at the
   * positions the decoder of the same revision reads, and 8 fields without a
   * file name, 9 with one.
   */
  lemma PacketsLayout(p: Primitives, data: seq<Byte>, chunksize: nat, compresslevel: int, compresstype: string,
                      filename: Option<string>, i: nat)
    requires Lawful(p)
    requires chunksize > 0
    requires NoChar(compresstype, '|')
    requires filename.Some? ==> NoChar(filename.value, '|')
    requires i < |Packets(p, data, chunksize, compresslevel, compresstype, filename)|
    ensures var pkts := Packets(p, data, chunksize, compresslevel, compresstype, filename);
            var pk := pkts[i];
            var fields := Split(pk[4..|pk| - 4], '|');
            var layout := LayoutFor(filename);
            && |fields| == (if filename.Some? then 9 else 8)
            && fields[CompressionField] == compresstype
            && fields[SeqNumField] == IntToStr(i)
            && fields[5] == IntToStr(|pkts| - 1)
            && fields[layout.checksum] == p.sha1(data)
  {
    var chunks := Chunks(p, data, chunksize, compresslevel, compresstype);
    PacketAt(p, data, chunksize, compresslevel, compresstype, filename, i);
    HexIsPlain(p.sha1(data));
    SplitPacketLayout(chunks[i], filename, p.sha1(data), i, |chunks| - 1, compresstype);
  }

  /** The body of a packet as `decode` sees it: stripped, white space deleted. */
  function NiceBody(body: string): string {
    RemoveSpace(Strip(body))
  }

  /** The bodies `decode` keeps: those not blank after `strip()`, cleaned. */
  function Nice(bodies: seq<string>): (r: seq<string>)
    ensures |r| <= |bodies|
  {
    if |bodies| == 0 then []
    else
      var last := bodies[|bodies| - 1];
      Nice(bodies[..|bodies| - 1]) + (if Strip(last) != "" then [NiceBody(last)] else [])
  }

  /** No body is kept exactly when every body is blank. */
  lemma {:induction false} NiceEmpty(bodies: seq<string>)
    ensures |Nice(bodies)| == 0 <==> forall k :: 0 <= k < |bodies| ==> Strip(bodies[k]) == ""
  {
    if |bodies| > 0 {
      var init := bodies[..|bodies| - 1];
      var last := bodies[|bodies| - 1];
      NiceEmpty(init);
      var blank := Strip(last) == "";
      assert |Nice(bodies)| == |Nice(init)| + (if blank then 0 else 1);
      if |Nice(init)| == 0 && blank {
        forall k | 0 <= k < |bodies| ensures Strip(bodies[k]) == "" {
          if k < |init| {
            assert init[k] == bodies[k];
          }
        }
      } else if |Nice(init)| > 0 {
        assert forall k :: 0 <= k < |init| ==> init[k] == bodies[k];
      } else {
        assert Strip(bodies[|bodies| - 1]) != "";
      }
    }
  }

  /** One body is kept exactly when it is not blank, stripped and with its white space deleted. */
  lemma NiceOne(body: string)
    ensures Nice([body]) == if Strip(body) != "" then [NiceBody(body)] else []
  {
    assert [body][..0] == [];
  }

  /**
   * `packets_nice` is built body by body: cleaning a concatenation is
   * cleaning each part, so the kept bodies keep their order.
   */
  lemma {:induction false} NiceAppend(a: seq<string>, b: seq<string>)
    ensures Nice(a + b) == Nice(a) + Nice(b)
    decreases |b|
  {
    if |b| == 0 {
      assert a + b == a;
    } else {
      var n := |b| - 1;
      assert (a + b)[..|a + b| - 1] == a + b[..n];
      assert (a + b)[|a + b| - 1] == b[n];
      NiceAppend(a, b[..n]);
    }
  }

  /** The loop building `packets_nice`. */
  method NiceBodies(bodies: seq<string>) returns (nice: seq<string>)
    ensures nice == Nice(bodies)
  {
    nice := [];
    for k := 0 to |bodies|
      invariant nice == Nice(bodies[..k])
    {
      assert bodies[..k + 1][..k] == bodies[..k];
      var b := Strip(bodies[k]);
      if b != "" {
        nice := nice + [RemoveSpace(b)];
      }
    }
    assert bodies[..|bodies|] == bodies;
  }

  /** `packet.split("|")`: the fields of a body. */
  function Segment(body: string): seq<string> {
    Split(body, '|')
  }

  /** The loop variables of `decode` other than `segments`. */
  datatype Progress =
    | Going(payload: seq<Byte>, log: seq<Warning>)
    | Stopped(error: PyError, log: seq<Warning>)

  /**
   * One iteration of the loop of `decode`: a body of fewer than 5 fields,
   * or with a sequence number that is not its position, is skipped with a
   * warning; otherwise its chunk is base64-decoded and appended, and a
   * missing chunk field raises IndexError.
   */
  function Step(p: Primitives, layout: Layout, payload: seq<Byte>, log: seq<Warning>, index: nat, body: string)
    : Progress
  {
    var seg := Segment(body);
    if |seg| <= SeqNumField then Going(payload, log + [InvalidPacket(index)])
    else if seg[SeqNumField] != IntToStr(index) then Going(payload, log + [OutOfOrder(index)])
    else if |seg| <= layout.chunk then Stopped(IndexError, log)
    else
      match p.b64decode(seg[layout.chunk])
      case None => Stopped(Base64Error, log)
      case Some(d) => Going(payload + d, log)
  }

  /** The loop of `decode` over the first k bodies. */
  function Fold(p: Primitives, layout: Layout, b: seq<string>, k: nat): Progress
    requires k <= |b|
  {
    if k == 0 then Going([], [])
    else
      match Fold(p, layout, b, k - 1)
      case Stopped(e, log) => Stopped(e, log)
      case Going(payload, log) => Step(p, layout, payload, log, k - 1, b[k - 1])
  }

  lemma {:induction false} StopPersists(p: Primitives, layout: Layout, b: seq<string>, k: nat, j: nat)
    requires k <= j <= |b|
    requires Fold(p, layout, b, k).Stopped?
    ensures Fold(p, layout, b, j) == Fold(p, layout, b, k)
    decreases j - k
  {
    if k < j {
      StopPersists(p, layout, b, k, j - 1);
    }
  }

  /** `verify`: the SHA-1 of the data, in hex, is the given hash. */
  function Verify(p: Primitives, data: seq<Byte>, givenHash: string): bool {
    p.sha1(data) == givenHash
  }

  /** A checksum field that is not a lower-case hex digest never verifies. */
  lemma VerifyRejectsNonHex(p: Primitives, data: seq<Byte>, givenHash: string)
    requires Lawful(p)
    requires !IsHex(givenHash)
    ensures !Verify(p, data, givenHash)
  {
  }

  /**
   * After the loop: the compression type and the checksum come from the
   * first body, whether or not its chunk was used.
   */
  function Finish(p: Primitives, layout: Layout, b: seq<string>, payload: seq<Byte>, log: seq<Warning>): (r: Report)
    ensures !r.outcome.Abort?
  {
    if |b| == 0 then Report(Fail(IndexError), log)
    else
      var first := Segment(b[0]);
      if |first| <= CompressionField then Report(Fail(IndexError), log)
      else
        match p.decompress(CompressorNamed(first[CompressionField]), payload)
        case None => Report(Fail(DecompressError), log)
        case Some(d) =>
          if |first| <= layout.checksum then Report(Fail(IndexError), log)
          else
            var ok := Verify(p, d, first[layout.checksum]);
            Report(Done(d, ok), log + (if ok then [] else [FileChecksum]))
  }

  /** What `decode(message)` does: exit 2, raise, or return the payload and the checksum verdict. */
  function DecodeSpec(p: Primitives, layout: Layout, message: string): (r: Report)
    ensures r.outcome.Abort? <==> |Scanner.Bodies(message)| == 0
    ensures r.outcome.Abort? ==> r == Report(Abort(2), [])
  {
    var found := Scanner.Bodies(message);
    if |found| == 0 then Report(Abort(2), [])
    else
      var b := Nice(found);
      var progress := Fold(p, layout, b, |b|);
      if progress.Stopped? then Report(Fail(progress.error), progress.log)
      else Finish(p, layout, b, progress.payload, progress.log)
  }

  /**
   * `decode`: extract and clean the bodies, split each into `segments` in
   * place, accumulate the payload, then decompress and verify.
   */
  method Decode(p: Primitives, layout: Layout, message: string) returns (outcome: Outcome, log: seq<Warning>)
    ensures Report(outcome, log) == DecodeSpec(p, layout, message)
  {
    var found := Scanner.Bodies(message);
    if |found| == 0 {
      return Abort(2), [];
    }
    var packets := NiceBodies(found);
    var segments := new Option<seq<string>>[|packets|](_ => None);
    var progress := Loop(p, layout, packets, segments);
    if progress.Stopped? {
      return Fail(progress.error), progress.log;
    }
    if segments.Length == 0 {
      return Fail(IndexError), progress.log;
    }
    outcome, log := Conclude(p, layout, progress.payload, progress.log, packets, segments[0].value);
  }

  /**
   * The loop of `decode`: `segments[index]` is set to the split of each body
   * in turn, whatever becomes of the body after.
   */
  method Loop(p: Primitives, layout: Layout, packets: seq<string>, segments: array<Option<seq<string>>>)
    returns (progress: Progress)
    requires segments.Length == |packets|
    modifies segments
    ensures progress == Fold(p, layout, packets, |packets|)
    ensures progress.Going? ==> forall i :: 0 <= i < |packets| ==> segments[i] == Some(Segment(packets[i]))
  {
    progress := Going([], []);
    for index := 0 to |packets|
      invariant forall i :: 0 <= i < index ==> segments[i] == Some(Segment(packets[i]))
      invariant progress == Fold(p, layout, packets, index) && progress.Going?
    {
      ghost var before := segments[..];
      segments[index] := Some(Segment(packets[index]));
      assert forall i :: 0 <= i < index ==> segments[i] == before[i];
      var next := Iteration(p, layout, progress.payload, progress.log, index, packets[index], segments[index].value);
      assert Fold(p, layout, packets, index + 1) == next;
      if next.Stopped? {
        StopPersists(p, layout, packets, index + 1, |packets|);
        return next;
      }
      progress := next;
    }
  }

  /** The body of the loop of `decode`, given the split of the current body. */
  method Iteration(p: Primitives, layout: Layout, payload: seq<Byte>, log: seq<Warning>, index: nat, body: string,
                   seg: seq<string>)
    returns (next: Progress)
    requires seg == Segment(body)
    ensures next == Step(p, layout, payload, log, index, body)
  {
    if |seg| <= SeqNumField {
      return Going(payload, log + [InvalidPacket(index)]);
    }
    if seg[SeqNumField] != IntToStr(index) {
      return Going(payload, log + [OutOfOrder(index)]);
    }
    if |seg| <= layout.chunk {
      return Stopped(IndexError, log);
    }
    var d := p.b64decode(seg[layout.chunk]);
    if d.None? {
      return Stopped(Base64Error, log);
    }
    return Going(payload + d.value, log);
  }

  /** After the loop of `decode`: decompress as the first body says, then verify. */
  method Conclude(p: Primitives, layout: Layout, payload: seq<Byte>, log0: seq<Warning>, packets: seq<string>,
                  first: seq<string>)
    returns (outcome: Outcome, log: seq<Warning>)
    requires |packets| > 0 && first == Segment(packets[0])
    ensures Report(outcome, log) == Finish(p, layout, packets, payload, log0)
  {
    log := log0;
    if |first| <= CompressionField {
      return Fail(IndexError), log;
    }
    var plain;
    if first[CompressionField] == "bz2" {
      plain := p.decompress(Bz2, payload);
    } else {
      plain := p.decompress(Gzip, payload);
    }
    if plain.None? {
      return Fail(DecompressError), log;
    }
    if |first| <= layout.checksum {
      return Fail(IndexError), log;
    }
    var ok := Verify(p, plain.value, first[layout.checksum]);
    if !ok {
      log := log + [FileChecksum];
    }
    return Done(plain.value, ok), log;
  }
}
