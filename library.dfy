/**
 * The canonical codec (bitshuffle/library.py): packets of 8 fields, or 9
 * on the first and last packet, which also carry the SHA-256 of the whole
 * input; each packet carries the SHA-256 of its own chunk text.
 *
 *   ((<<msg|1|base64|compressor|seqnum|seqmax|chunk hash|chunk[|file hash]>>))
 */
module Library {
  import opened Common
  import opened Fields
  import Scanner
  import Chunker

  const CompatLevel: string := "1"
  const EncodingName: string := "base64"

  // Field positions read by `decode` (library.py:170-171).
  const CompressionField := 3
  const SeqNumField := 4
  const PacketHashField := 6
  const ChunkField := 7
  const FileHashField := 8

  /** `shasum`: the SHA-256 of the data as lower-case hex. */
  function ShaSum(p: Primitives, data: seq<Byte>): (r: string)
    ensures Lawful(p) ==> IsHex(r) && NoChar(r, '|') && NoAsciiSpace(r) && NoChar(r, '\n')
  {
    HexIsPlain(p.sha256(data));
    p.sha256(data)
  }

  lemma HexIsPlain(s: string)
    ensures IsHex(s) ==> NoChar(s, '|') && NoAsciiSpace(s) && NoChar(s, '\n')
  {
    if IsHex(s) {
      forall i | 0 <= i < |s| ensures s[i] != '|' && !IsAsciiSpace(s[i]) {
        assert IsHexDigit(s[i]);
      }
    }
  }

  /** The chunks `encode_data` returns for `data`. */
  function Chunks(p: Primitives, data: seq<Byte>, chunksize: nat, compresslevel: int, compress: Compressor): seq<seq<Byte>>
    requires chunksize > 0
  {
    Chunker.Encoded(p, p.compress(compress, compresslevel, data), chunksize)
  }

  /**
   * `encode_data`: compress, cut into `chunksize` slices, base64-encode each
   * and drop the empty encodings.
   */
  method EncodeData(p: Primitives, data: seq<Byte>, chunksize: nat, compresslevel: int, compress: Compressor)
    returns (chunks: seq<seq<Byte>>)
    requires Lawful(p)
    requires chunksize > 0
    ensures chunks == Chunks(p, data, chunksize, compresslevel, compress)
    ensures Chunker.DecodeChunks(p, chunks) == Some(p.compress(compress, compresslevel, data))
    ensures |chunks| > 0
  {
    var compressed := p.compress(compress, compresslevel, data);
    var raw := Chunker.RawChunks(p, compressed, chunksize);
    Chunker.RawChunksFiltered(p, compressed, chunksize);
    chunks := Chunker.NonEmpty(raw);
    Chunker.EncodedRoundTrip(p, compressed, chunksize);
    Chunker.SlicesSizes(compressed, chunksize);
    Chunker.EncodedSlices(p, compressed, chunksize);
  }

  /** Every chunk is non-empty base64 text. */
  lemma ChunksArePlain(p: Primitives, data: seq<Byte>, chunksize: nat, compresslevel: int, compress: Compressor)
    requires Lawful(p)
    requires chunksize > 0
    ensures var chunks := Chunks(p, data, chunksize, compresslevel, compress);
            && |chunks| > 0
            && forall k :: 0 <= k < |chunks| ==> IsAscii(chunks[k]) && |chunks[k]| > 0 && Base64Plain(chunks[k])
  {
    var compressed := p.compress(compress, compresslevel, data);
    var chunks := Chunks(p, data, chunksize, compresslevel, compress);
    Chunker.SlicesSizes(compressed, chunksize);
    Chunker.EncodedSlices(p, compressed, chunksize);
    forall k | 0 <= k < |chunks| ensures IsAscii(chunks[k]) && |chunks[k]| > 0 && Base64Plain(chunks[k]) {
      var slice := Chunker.Slices(compressed, chunksize)[k];
      Base64IsAscii(p, slice);
      Base64TextIsPlain(p, slice);
    }
  }

  /** Base64 text holds no separator, no white space and no newline. */
  predicate Base64Plain(chunk: seq<Byte>) {
    var t := Text(chunk);
    NoChar(t, '|') && NoAsciiSpace(t) && NoChar(t, '\n') &&
    (|t| > 0 ==> !IsUnicodeSpace(t[|t| - 1]))
  }

  lemma Base64TextIsPlain(p: Primitives, d: seq<Byte>)
    requires Lawful(p)
    ensures Base64Plain(p.b64encode(d))
  {
    var e := p.b64encode(d);
    var t := Text(e);
    forall i | 0 <= i < |t| ensures t[i] != '|' && !IsAsciiSpace(t[i]) && !IsUnicodeSpace(t[i]) {
      assert IsBase64Byte(e[i]);
      assert t[i] as int == e[i];
    }
  }

  /** The fields of one packet, in wire order. */
  function PacketFields(p: Primitives, chunk: seq<Byte>, seqnum: int, seqmax: int, compress: Compressor,
                        msg: string, fileHash: Option<string>): seq<string>
  {
    [msg] + FieldsAfterMessage(p, chunk, seqnum, seqmax, compress, fileHash)
  }

  function FieldsAfterMessage(p: Primitives, chunk: seq<Byte>, seqnum: int, seqmax: int, compress: Compressor,
                              fileHash: Option<string>): seq<string>
  {
    [CompatLevel, EncodingName, ModuleName(compress), IntToStr(seqnum), IntToStr(seqmax),
     ShaSum(p, chunk), Text(chunk)] + (if fileHash.Some? then [fileHash.value] else [])
  }

  /** Where each value sits among the fields of a packet. */
  lemma PacketFieldsLayout(p: Primitives, chunk: seq<Byte>, seqnum: int, seqmax: int, compress: Compressor,
                           msg: string, fileHash: Option<string>)
    ensures var f := PacketFields(p, chunk, seqnum, seqmax, compress, msg, fileHash);
            && |f| == (if fileHash.Some? then FileHashField + 1 else FileHashField)
            && f[0] == msg && f[1] == CompatLevel && f[2] == EncodingName
            && f[CompressionField] == ModuleName(compress)
            && f[SeqNumField] == IntToStr(seqnum) && f[5] == IntToStr(seqmax)
            && f[PacketHashField] == ShaSum(p, chunk) && f[ChunkField] == Text(chunk)
            && (fileHash.Some? ==> f[FileHashField] == fileHash.value)
  {
  }

  /**
   * `encode_packet`: the fields joined by `|` inside `((<<` and `>>))`.
   * `EncodePacketFields` below splits the body back into the fields.
   */
  function EncodePacket(p: Primitives, chunk: seq<Byte>, seqnum: int, seqmax: int, compress: Compressor,
                        msg: string, fileHash: Option<string>): (r: string)
    ensures |r| >= 8 && r[..4] == Scanner.Open && r[|r| - 4..] == Scanner.Close
  {
    Scanner.Open + Join(PacketFields(p, chunk, seqnum, seqmax, compress, msg, fileHash), '|') + Scanner.Close
  }

  /**
   * When no field text holds a `|`, splitting a packet's body gives back
   * exactly its fields: 8, or 9 when a file hash is attached.
   */
  lemma EncodePacketFields(p: Primitives, chunk: seq<Byte>, seqnum: int, seqmax: int, compress: Compressor,
                           msg: string, fileHash: Option<string>)
    requires Lawful(p)
    requires NoChar(msg, '|') && NoChar(Text(chunk), '|')
    requires fileHash.Some? ==> NoChar(fileHash.value, '|')
    ensures var r := EncodePacket(p, chunk, seqnum, seqmax, compress, msg, fileHash);
            && Split(r[4..|r| - 4], '|') == PacketFields(p, chunk, seqnum, seqmax, compress, msg, fileHash)
            && |Split(r[4..|r| - 4], '|')| == (if fileHash.Some? then 9 else 8)
  {
    var fields := PacketFields(p, chunk, seqnum, seqmax, compress, msg, fileHash);
    var r := EncodePacket(p, chunk, seqnum, seqmax, compress, msg, fileHash);
    assert r[4..|r| - 4] == Join(fields, '|');
    assert NoChar(ModuleName(compress), '|');
    IntToStrDigits(seqnum);
    IntToStrDigits(seqmax);
    assert NoChar(IntToStr(seqnum), '|') && NoChar(IntToStr(seqmax), '|');
    assert NoChar(ShaSum(p, chunk), '|');
    SplitJoin(fields, '|');
  }

  /** Packets 0 and n - 1 carry the file hash; the others do not. */
  function FileHashFor(seqnum: int, seqmax: int, fileHash: string): Option<string> {
    if seqnum == 0 || seqnum == seqmax then Some(fileHash) else None
  }

  /** The packets for `chunks`, numbered 0 .. n - 1. */
  function PacketsOf(p: Primitives, chunks: seq<seq<Byte>>, compress: Compressor, msg: string, fileHash: string)
    : seq<string>
  {
    seq(|chunks|, i requires 0 <= i < |chunks| =>
      EncodePacket(p, chunks[i], i, |chunks| - 1, compress, msg, FileHashFor(i, |chunks| - 1, fileHash)))
  }

  /** The packets `encode_file` returns for `data`. */
  function Packets(p: Primitives, data: seq<Byte>, chunksize: nat, compresslevel: int, compress: Compressor,
                   msg: string): seq<string>
    requires chunksize > 0
  {
    PacketsOf(p, Chunks(p, data, chunksize, compresslevel, compress), compress, msg, ShaSum(p, data))
  }

  /**
   * `encode_file` over the input bytes: hash the input, encode it, and
   * number the packets 0 .. n - 1 with seqmax n - 1, attaching the file hash
   * to the first and the last packet only.
   */
  method EncodeFile(p: Primitives, data: seq<Byte>, chunksize: nat, compresslevel: int, compress: Compressor,
                    msg: string)
    returns (packets: seq<string>)
    requires Lawful(p)
    requires chunksize > 0
    ensures packets == Packets(p, data, chunksize, compresslevel, compress, msg)
    ensures |packets| > 0
  {
    var fileHash := ShaSum(p, data);
    var chunks := EncodeData(p, data, chunksize, compresslevel, compress);
    packets := NumberChunks(p, chunks, compress, msg, fileHash);
  }

  /**
   * The `for` loop of `encode_file`: one packet per chunk, numbered in
   * order, the file hash on the first and the last.
   */
  method NumberChunks(p: Primitives, chunks: seq<seq<Byte>>, compress: Compressor, msg: string, fileHash: string)
    returns (packets: seq<string>)
    ensures packets == PacketsOf(p, chunks, compress, msg, fileHash)
  {
    ghost var all := PacketsOf(p, chunks, compress, msg, fileHash);
    var seqmax := |chunks| - 1;
    var seqnum := 0;
    packets := [];
    while seqnum < |chunks|
      invariant 0 <= seqnum <= |chunks| == |all|
      invariant |packets| == seqnum && forall j :: 0 <= j < seqnum ==> packets[j] == all[j]
    {
      var packet;
      if seqnum == 0 || seqnum == seqmax {
        packet := EncodePacket(p, chunks[seqnum], seqnum, seqmax, compress, msg, Some(fileHash));
      } else {
        packet := EncodePacket(p, chunks[seqnum], seqnum, seqmax, compress, msg, None);
      }
      assert all[seqnum] == EncodePacket(p, chunks[seqnum], seqnum, |chunks| - 1, compress, msg,
                                         FileHashFor(seqnum, |chunks| - 1, fileHash));
      assert packet == all[seqnum];
      packets := packets + [packet];
      seqnum := seqnum + 1;
    }
  }

  /** The fields of a packet body where the decoder reads them. */
  lemma SplitPacketLayout(p: Primitives, chunk: seq<Byte>, seqnum: int, seqmax: int, compress: Compressor,
                          msg: string, fileHash: Option<string>)
    requires Lawful(p)
    requires NoChar(msg, '|') && NoChar(Text(chunk), '|')
    requires fileHash.Some? ==> NoChar(fileHash.value, '|')
    ensures var pk := EncodePacket(p, chunk, seqnum, seqmax, compress, msg, fileHash);
            var fields := Split(pk[4..|pk| - 4], '|');
            && |fields| == (if fileHash.Some? then 9 else 8)
            && fields[SeqNumField] == IntToStr(seqnum)
            && fields[5] == IntToStr(seqmax)
            && (fileHash.Some? ==> fields[FileHashField] == fileHash.value)
  {
    EncodePacketFields(p, chunk, seqnum, seqmax, compress, msg, fileHash);
    PacketFieldsLayout(p, chunk, seqnum, seqmax, compress, msg, fileHash);
  }

  /** The i-th packet of an input, and the chunk it carries holds no separator. */
  lemma PacketAt(p: Primitives, data: seq<Byte>, chunksize: nat, compresslevel: int, compress: Compressor,
                 msg: string, i: nat)
    requires Lawful(p)
    requires chunksize > 0
    requires i < |Chunks(p, data, chunksize, compresslevel, compress)|
    ensures var chunks := Chunks(p, data, chunksize, compresslevel, compress);
            var pkts := Packets(p, data, chunksize, compresslevel, compress, msg);
            && |pkts| == |chunks|
            && pkts[i] == EncodePacket(p, chunks[i], i, |chunks| - 1, compress, msg,
                                       FileHashFor(i, |chunks| - 1, ShaSum(p, data)))
            && NoChar(Text(chunks[i]), '|')
  {
    ChunksArePlain(p, data, chunksize, compresslevel, compress);
  }

  /**
   * The layout of the i-th of n packets: sequence number i, seqmax n - 1,
   * and 9 fields, the last one the input's SHA-256, exactly when i is 0 or
   * n - 1 (a single packet when n is 1); 8 fields otherwise.
   */
  lemma PacketsLayout(p: Primitives, data: seq<Byte>, chunksize: nat, compresslevel: int, compress: Compressor,
                      msg: string, i: nat)
    requires Lawful(p)
    requires chunksize > 0
    requires NoChar(msg, '|')
    requires i < |Packets(p, data, chunksize, compresslevel, compress, msg)|
    ensures var pkts := Packets(p, data, chunksize, compresslevel, compress, msg);
            var pk := pkts[i];
            var fields := Split(pk[4..|pk| - 4], '|');
            && (|fields| == 9 || |fields| == 8)
            && fields[SeqNumField] == IntToStr(i)
            && fields[5] == IntToStr(|pkts| - 1)
            && (|fields| == 9 <==> i == 0 || i == |pkts| - 1)
            && (|fields| == 9 ==> fields[FileHashField] == ShaSum(p, data))
  {
    var chunks := Chunks(p, data, chunksize, compresslevel, compress);
    var fh := FileHashFor(i, |chunks| - 1, ShaSum(p, data));
    PacketAt(p, data, chunksize, compresslevel, compress, msg, i);
    HexIsPlain(ShaSum(p, data));
    SplitPacketLayout(p, chunks[i], i, |chunks| - 1, compress, msg, fh);
    var pk := EncodePacket(p, chunks[i], i, |chunks| - 1, compress, msg, fh);
    var fields := Split(pk[4..|pk| - 4], '|');
    assert fh.Some? <==> i == 0 || i == |chunks| - 1;
    assert |fields| == 9 <==> fh.Some?;
  }

  // ---------------------------------------------------------------- decode

  /** The packet bodies that survive the clean-up: blank ones dropped, white space deleted. */
  function Clean(bodies: seq<string>): (r: seq<string>)
    ensures |r| <= |bodies|
    ensures forall k :: 0 <= k < |r| ==> NoAsciiSpace(r[k])
    decreases |bodies|
  {
    if |bodies| == 0 then []
    else (if Strip(bodies[0]) != "" then [RemoveSpace(bodies[0])] else []) + Clean(bodies[1..])
  }

  /** No body survives exactly when every body is blank. */
  lemma {:induction false} CleanEmpty(bodies: seq<string>)
    ensures |Clean(bodies)| == 0 <==> forall k :: 0 <= k < |bodies| ==> Strip(bodies[k]) == ""
    decreases |bodies|
  {
    if |bodies| > 0 {
      CleanEmpty(bodies[1..]);
      assert forall k :: 1 <= k < |bodies| ==> bodies[k] == bodies[1..][k - 1];
    }
  }

  /** One body survives exactly when it is not blank, with its white space deleted. */
  lemma CleanOne(body: string)
    ensures Clean([body]) == if Strip(body) != "" then [RemoveSpace(body)] else []
  {
    assert [body][1..] == [];
  }

  /**
   * The clean-up works body by body: cleaning a concatenation is cleaning
   * each part, so the surviving bodies keep their order.
   */
  lemma {:induction false} CleanAppend(a: seq<string>, b: seq<string>)
    ensures Clean(a + b) == Clean(a) + Clean(b)
    decreases |a|
  {
    if |a| == 0 {
      assert a + b == b;
    } else {
      assert (a + b)[0] == a[0];
      assert (a + b)[1..] == a[1..] + b;
      CleanAppend(a[1..], b);
    }
  }

  /** The loop variables of `decode`. */
  datatype LibState = LibState(
    payload: seq<Byte>,           // `payload`
    wrong: nat,                   // `num_chunks_wrong`
    fileHash: Option<string>,     // `overall_hash`
    log: seq<Warning>,            // warnings written so far
    last: Option<seq<string>>)    // the loop variable `packet`, once bound

  const Start := LibState([], 0, None, [], None)

  /** Either the loop goes on, or an exception escaped it. */
  datatype Progress = Running(st: LibState) | Crashed(error: PyError, log: seq<Warning>)

  /**
   * One iteration of the loop of `decode` on the body at `index`.  The
   * sequence-number and file-hash warnings raise TypeError while their
   * message is formatted; a body of 5 to 7 fields raises IndexError when its
   * chunk is read; a chunk hash mismatch is counted and the chunk still used.
   */
  function Step(p: Primitives, st: LibState, index: nat, body: string): Progress
  {
    var f := Split(body, '|');
    var st1 := st.(last := Some(f));
    if |f| <= SeqNumField then Running(st1.(log := st.log + [InvalidPacket(index)]))
    else if f[SeqNumField] != IntToStr(index) then Crashed(TypeError, st.log)
    else if |f| == FileHashField + 1 && st.fileHash.Some? && f[FileHashField] != st.fileHash.value then
      Crashed(TypeError, st.log)
    else if |f| <= ChunkField then Crashed(IndexError, st.log)
    else
      var st2 := if |f| == FileHashField + 1 && st.fileHash.None? then st1.(fileHash := Some(f[FileHashField])) else st1;
      match AsciiEncode(f[ChunkField])
      case None => Crashed(UnicodeEncodeError, st.log)
      case Some(bytes) =>
        var st3 := if ShaSum(p, bytes) != f[PacketHashField]
                   then st2.(wrong := st2.wrong + 1, log := st2.log + [ChunkChecksum(index)])
                   else st2;
        match p.b64decode(f[ChunkField])
        case None => Crashed(Base64Error, st3.log)
        case Some(d) => Running(st3.(payload := st3.payload + d))
  }

  /**
   * Which body makes an iteration raise, and what an iteration that does
   * not raise records: a short body is only logged, any other body binds
   * the loop variable and may add one chunk-hash warning.
   */
  lemma StepOutcomes(p: Primitives, st: LibState, index: nat, body: string)
    ensures var r := Step(p, st, index, body);
            var f := Split(body, '|');
            var clash := |f| == FileHashField + 1 && st.fileHash.Some? && f[FileHashField] != st.fileHash.value;
            && (r.Crashed? && r.error == TypeError <==>
                |f| > SeqNumField && (f[SeqNumField] != IntToStr(index) || clash))
            && (r.Crashed? && r.error == IndexError <==>
                SeqNumField < |f| <= ChunkField && f[SeqNumField] == IntToStr(index) && !clash)
            && (|f| <= SeqNumField ==> r == Running(st.(last := Some(f), log := st.log + [InvalidPacket(index)])))
            && (r.Running? && |f| > SeqNumField ==>
                && r.st.last == Some(f)
                && (r.st.log == st.log || r.st.log == st.log + [ChunkChecksum(index)]))
  {
  }

  /** The loop of `decode` run over the first `k` bodies. */
  function Fold(p: Primitives, bodies: seq<string>, k: nat): Progress
    requires k <= |bodies|
  {
    if k == 0 then Running(Start)
    else
      match Fold(p, bodies, k - 1)
      case Crashed(e, log) => Crashed(e, log)
      case Running(st) => Step(p, st, k - 1, bodies[k - 1])
  }

  /** After k iterations that did not raise, the next one is one more step. */
  lemma FoldNext(p: Primitives, bodies: seq<string>, k: nat)
    requires 0 < k <= |bodies|
    requires Fold(p, bodies, k - 1).Running?
    ensures Fold(p, bodies, k) == Step(p, Fold(p, bodies, k - 1).st, k - 1, bodies[k - 1])
  {
  }

  /** An exception ends the loop: later bodies are never looked at. */
  lemma {:induction false} CrashPersists(p: Primitives, bodies: seq<string>, k: nat, j: nat)
    requires k <= j <= |bodies|
    requires Fold(p, bodies, k).Crashed?
    ensures Fold(p, bodies, j) == Fold(p, bodies, k)
    decreases j - k
  {
    if k < j {
      CrashPersists(p, bodies, k, j - 1);
    }
  }

  /**
   * After the loop: decompress with the compressor named by the last body
   * seen, and accept the payload when no chunk hash failed or, failing that,
   * when the file hash matches the payload.
   */
  function Finish(p: Primitives, st: LibState): (r: Report)
    ensures !r.outcome.Abort?
    ensures st.last.None? ==> r == Report(Fail(UnboundLocalError), st.log)
    ensures r.outcome.Done? ==>
              && st.last.Some? && |st.last.value| > CompressionField
              && p.decompress(if st.last.value[CompressionField] == "bz2" then Bz2 else Gzip, st.payload)
                 == Some(r.outcome.payload)
              && (r.outcome.ok <==>
                  st.wrong == 0 || (st.fileHash.Some? && ShaSum(p, r.outcome.payload) == st.fileHash.value))
              && r.log == st.log + (if r.outcome.ok then [] else if st.fileHash.Some? then [FileChecksum] else [CorruptChunks])
  {
    match st.last
    case None => Report(Fail(UnboundLocalError), st.log)
    case Some(f) =>
      if |f| <= CompressionField then Report(Fail(IndexError), st.log)
      else
        var c := if f[CompressionField] == "bz2" then Bz2 else Gzip;
        match p.decompress(c, st.payload)
        case None => Report(Fail(DecompressError), st.log)
        case Some(d) =>
          var ok := st.wrong == 0 || (st.fileHash.Some? && ShaSum(p, d) == st.fileHash.value);
          Report(Done(d, ok),
                 st.log + (if ok then [] else if st.fileHash.Some? then [FileChecksum] else [CorruptChunks]))
  }

  /** What `decode(message)` does: exit 202, raise, or return the payload and its verdict. */
  function DecodeSpec(p: Primitives, message: string): (r: Report)
    ensures r.outcome.Abort? <==> |Scanner.Bodies(message)| == 0
    ensures r.outcome.Abort? ==> r == Report(Abort(202), [])
  {
    var found := Scanner.Bodies(message);
    if |found| == 0 then Report(Abort(202), [])
    else
      var bodies := Clean(found);
      var progress := Fold(p, bodies, |bodies|);
      if progress.Crashed? then Report(Fail(progress.error), progress.log)
      else Finish(p, progress.st)
  }

  /** `decode`: the loop over the cleaned bodies, then decompression and the verdict. */
  method Decode(p: Primitives, message: string) returns (outcome: Outcome, log: seq<Warning>)
    ensures Report(outcome, log) == DecodeSpec(p, message)
  {
    var found := Scanner.Bodies(message);
    if |found| == 0 {
      return Abort(202), [];
    }
    var packets := Clean(found);
    var st := Start;
    for index := 0 to |packets|
      invariant Fold(p, packets, index) == Running(st)
    {
      var next := Iteration(p, st, index, packets[index]);
      if next.Crashed? {
        CrashPersists(p, packets, index + 1, |packets|);
        return Fail(next.error), next.log;
      }
      st := next.st;
    }
    outcome, log := Conclude(p, st.payload, st.wrong, st.fileHash, st.log, st.last);
  }

  /**
   * One pass of the loop of `decode`, on the loop variables `st`: a short
   * body is logged and skipped (`continue`); an exception ends the loop.
   */
  method Iteration(p: Primitives, st: LibState, index: nat, body: string) returns (r: Progress)
    ensures r == Step(p, st, index, body)
  {
    var payload, wrong, overall, log := st.payload, st.wrong, st.fileHash, st.log;
    var packet := Split(body, '|');
    var last := Some(packet);
    if |packet| <= SeqNumField {
      log := log + [InvalidPacket(index)];
      return Running(LibState(payload, wrong, overall, log, last));
    }
    if packet[SeqNumField] != IntToStr(index) {
      return Crashed(TypeError, log);
    }
    if |packet| - 1 == FileHashField {
      if overall.None? {
        overall := Some(packet[FileHashField]);
      } else if packet[FileHashField] != overall.value {
        return Crashed(TypeError, log);
      }
    }
    if |packet| <= ChunkField {
      return Crashed(IndexError, log);
    }
    var encoded := AsciiEncode(packet[ChunkField]);
    if encoded.None? {
      return Crashed(UnicodeEncodeError, log);
    }
    var hashed := ShaSum(p, encoded.value);
    if hashed != packet[PacketHashField] {
      wrong := wrong + 1;
      log := log + [ChunkChecksum(index)];
    }
    var decoded := p.b64decode(packet[ChunkField]);
    if decoded.None? {
      return Crashed(Base64Error, log);
    }
    payload := payload + decoded.value;
    return Running(LibState(payload, wrong, overall, log, last));
  }

  /** The end of `decode`: decompression after the loop, the verdict and its warning. */
  method Conclude(p: Primitives, payload: seq<Byte>, wrong: nat, overall: Option<string>, log0: seq<Warning>,
                  last: Option<seq<string>>)
    returns (outcome: Outcome, log: seq<Warning>)
    ensures Report(outcome, log) == Finish(p, LibState(payload, wrong, overall, log0, last))
  {
    log := log0;
    if last.None? {
      return Fail(UnboundLocalError), log;
    }
    var fields := last.value;
    if |fields| <= CompressionField {
      return Fail(IndexError), log;
    }
    var c := if fields[CompressionField] == "bz2" then Bz2 else Gzip;
    var d := p.decompress(c, payload);
    if d.None? {
      return Fail(DecompressError), log;
    }
    var ok := wrong == 0 || (overall.Some? && ShaSum(p, d.value) == overall.value);
    if !ok {
      if overall.Some? {
        log := log + [FileChecksum];
      } else {
        log := log + [CorruptChunks];
      }
    }
    return Done(d.value, ok), log;
  }
}
