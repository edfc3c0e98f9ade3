/**
 * What the loop of `decode` in the two command-line revisions keeps track
 * of, which bodies make it raise, and how the verdict on the payload is
 * reached.  Everything is stated for either layout.
 */
module LegacyProofs {
  import opened Common
  import opened Fields
  import opened Legacy
  import Scanner

  /** The sequence number of a body of 5 fields or more is its position. */
  predicate InOrder(j: nat, f: seq<string>) {
    |f| > SeqNumField && f[SeqNumField] == IntToStr(j)
  }

  /**
   * A body the loop goes past: one skipped with a warning, or one in order
   * whose chunk field exists and is valid base64.
   */
  predicate Passed(p: Primitives, layout: Layout, j: nat, f: seq<string>) {
    !InOrder(j, f) || (|f| > layout.chunk && p.b64decode(f[layout.chunk]).Some?)
  }

  /** The chunk fields of the in-order bodies among the first k, in order. */
  function InOrderChunks(layout: Layout, b: seq<string>, k: nat): (r: seq<string>)
    requires k <= |b|
    ensures |r| <= k
  {
    if k == 0 then []
    else
      var f := Segment(b[k - 1]);
      InOrderChunks(layout, b, k - 1) + (if InOrder(k - 1, f) && |f| > layout.chunk then [f[layout.chunk]] else [])
  }

  /** After k iterations that did not raise, the next one is one more step. */
  lemma GoingNext(p: Primitives, layout: Layout, b: seq<string>, k: nat)
    requires 0 < k <= |b|
    requires Fold(p, layout, b, k - 1).Going?
    ensures var prev := Fold(p, layout, b, k - 1);
            Fold(p, layout, b, k) == Step(p, layout, prev.payload, prev.log, k - 1, b[k - 1])
  {
  }

  /**
   * One iteration: it goes on exactly when the body is passed; then the
   * chunk of an in-order body is appended, and a body of fewer than 5
   * fields or out of order is logged.
   */
  lemma StepEffect(p: Primitives, layout: Layout, payload: seq<Byte>, log: seq<Warning>, j: nat, body: string)
    ensures var r := Step(p, layout, payload, log, j, body);
            var f := Segment(body);
            && (r.Going? <==> Passed(p, layout, j, f))
            && (r.Going? ==>
                  && r.payload == payload + (if InOrder(j, f) then p.b64decode(f[layout.chunk]).value else [])
                  && r.log == log + (if |f| <= SeqNumField then [InvalidPacket(j)]
                                     else if !InOrder(j, f) then [OutOfOrder(j)] else []))
            && (r.Stopped? ==> r.log == log)
  {
  }

  /** The loop gets past k bodies exactly when it got past k - 1 and the k-th is passed. */
  lemma GoingStep(p: Primitives, layout: Layout, b: seq<string>, k: nat)
    requires 0 < k <= |b|
    ensures Fold(p, layout, b, k).Going? <==>
            Fold(p, layout, b, k - 1).Going? && Passed(p, layout, k - 1, Segment(b[k - 1]))
  {
    if Fold(p, layout, b, k - 1).Going? {
      var prev := Fold(p, layout, b, k - 1);
      GoingNext(p, layout, b, k);
      StepEffect(p, layout, prev.payload, prev.log, k - 1, b[k - 1]);
    }
  }

  /**
   * The loop gets past the first k bodies without raising exactly when
   * each of them is passed.
   */
  lemma {:induction false} LoopGoesIff(p: Primitives, layout: Layout, b: seq<string>, k: nat)
    requires k <= |b|
    ensures Fold(p, layout, b, k).Going? <==> forall j :: 0 <= j < k ==> Passed(p, layout, j, Segment(b[j]))
  {
    if k > 0 {
      LoopGoesIff(p, layout, b, k - 1);
      GoingStep(p, layout, b, k);
    }
  }

  /**
   * The payload of a loop that has not raised is the base64 decoding of the
   * chunk fields of the in-order bodies, concatenated in order.
   */
  lemma {:induction false} FoldPayload(p: Primitives, layout: Layout, b: seq<string>, k: nat)
    requires k <= |b|
    requires Fold(p, layout, b, k).Going?
    ensures DecodeAll(p, InOrderChunks(layout, b, k)) == Some(Fold(p, layout, b, k).payload)
  {
    if k > 0 {
      LoopGoesIff(p, layout, b, k);
      LoopGoesIff(p, layout, b, k - 1);
      var prev := Fold(p, layout, b, k - 1);
      GoingNext(p, layout, b, k);
      StepEffect(p, layout, prev.payload, prev.log, k - 1, b[k - 1]);
      FoldPayload(p, layout, b, k - 1);
      var f := Segment(b[k - 1]);
      var chunks := InOrderChunks(layout, b, k);
      if InOrder(k - 1, f) {
        assert Passed(p, layout, k - 1, f);
        assert chunks[..|chunks| - 1] == InOrderChunks(layout, b, k - 1);
      } else {
        assert chunks == InOrderChunks(layout, b, k - 1);
      }
    }
  }

  /** What the k-th iteration adds to the log, when the loop got past it. */
  lemma FoldLogStep(p: Primitives, layout: Layout, b: seq<string>, k: nat)
    requires 0 < k <= |b|
    requires Fold(p, layout, b, k).Going?
    ensures Fold(p, layout, b, k - 1).Going?
    ensures var f := Segment(b[k - 1]);
            Fold(p, layout, b, k).log ==
            Fold(p, layout, b, k - 1).log + (if |f| <= SeqNumField then [InvalidPacket(k - 1)]
                                             else if !InOrder(k - 1, f) then [OutOfOrder(k - 1)] else [])
  {
    var prev := Fold(p, layout, b, k - 1);
    GoingNext(p, layout, b, k);
    StepEffect(p, layout, prev.payload, prev.log, k - 1, b[k - 1]);
  }

  /**
   * Every warning of the loop is justified: "invalid" names a body of fewer
   * than 5 fields, "does not match actual order" one of 5 fields or more
   * whose sequence number is not its position.
   */
  lemma {:induction false} FoldLogJustified(p: Primitives, layout: Layout, b: seq<string>, k: nat)
    requires k <= |b|
    requires Fold(p, layout, b, k).Going?
    ensures forall w :: w in Fold(p, layout, b, k).log ==>
              || (w.InvalidPacket? && w.index < k && |Segment(b[w.index])| <= SeqNumField)
              || (w.OutOfOrder? && w.index < k && |Segment(b[w.index])| > SeqNumField &&
                  !InOrder(w.index, Segment(b[w.index])))
  {
    if k > 0 {
      FoldLogStep(p, layout, b, k);
      FoldLogJustified(p, layout, b, k - 1);
    }
  }

  /** Every body of fewer than 5 fields and every body out of order is logged. */
  lemma {:induction false} FoldLogComplete(p: Primitives, layout: Layout, b: seq<string>, k: nat)
    requires k <= |b|
    requires Fold(p, layout, b, k).Going?
    ensures forall j :: 0 <= j < k && |Segment(b[j])| <= SeqNumField ==> InvalidPacket(j) in Fold(p, layout, b, k).log
    ensures forall j :: 0 <= j < k && |Segment(b[j])| > SeqNumField && !InOrder(j, Segment(b[j])) ==>
              OutOfOrder(j) in Fold(p, layout, b, k).log
  {
    if k > 0 {
      FoldLogStep(p, layout, b, k);
      FoldLogComplete(p, layout, b, k - 1);
      var prev := Fold(p, layout, b, k - 1).log;
      var log := Fold(p, layout, b, k).log;
      forall j | 0 <= j < k && |Segment(b[j])| <= SeqNumField ensures InvalidPacket(j) in log {
        if j < k - 1 {
          assert InvalidPacket(j) in prev;
        }
      }
      forall j | 0 <= j < k && |Segment(b[j])| > SeqNumField && !InOrder(j, Segment(b[j]))
        ensures OutOfOrder(j) in log
      {
        if j < k - 1 {
          assert OutOfOrder(j) in prev;
        }
      }
    }
  }

  /** An exception in the loop at body j is what `decode` ends with. */
  lemma StoppedAt(p: Primitives, layout: Layout, message: string, b: seq<string>, j: nat)
    requires |Scanner.Bodies(message)| > 0
    requires b == Nice(Scanner.Bodies(message))
    requires j < |b|
    requires Fold(p, layout, b, j + 1).Stopped?
    ensures DecodeSpec(p, layout, message).outcome == Fail(Fold(p, layout, b, j + 1).error)
  {
    StopPersists(p, layout, b, j + 1, |b|);
  }

  /** The outcome of the iteration at body j when the bodies before it were passed. */
  lemma StepAfterPassed(p: Primitives, layout: Layout, b: seq<string>, j: nat)
    requires j < |b|
    requires forall i :: 0 <= i < j ==> Passed(p, layout, i, Segment(b[i]))
    ensures var prev := Fold(p, layout, b, j);
            prev.Going? && Fold(p, layout, b, j + 1) == Step(p, layout, prev.payload, prev.log, j, b[j])
  {
    LoopGoesIff(p, layout, b, j);
    GoingNext(p, layout, b, j + 1);
  }

  /**
   * A body in order but without a chunk field makes `decode` raise
   * IndexError, if the bodies before it were passed.
   */
  lemma MissingChunkRaises(p: Primitives, layout: Layout, message: string, j: nat)
    requires |Scanner.Bodies(message)| > 0
    requires var b := Nice(Scanner.Bodies(message));
             && j < |b|
             && (forall i :: 0 <= i < j ==> Passed(p, layout, i, Segment(b[i])))
             && InOrder(j, Segment(b[j])) && |Segment(b[j])| <= layout.chunk
    ensures DecodeSpec(p, layout, message).outcome == Fail(IndexError)
  {
    var b := Nice(Scanner.Bodies(message));
    StepAfterPassed(p, layout, b, j);
    StoppedAt(p, layout, message, b, j);
  }

  /**
   * A body in order whose chunk is not valid base64 makes `decode` raise,
   * if the bodies before it were passed.
   */
  lemma BadChunkRaises(p: Primitives, layout: Layout, message: string, j: nat)
    requires |Scanner.Bodies(message)| > 0
    requires var b := Nice(Scanner.Bodies(message));
             && j < |b|
             && (forall i :: 0 <= i < j ==> Passed(p, layout, i, Segment(b[i])))
             && InOrder(j, Segment(b[j])) && |Segment(b[j])| > layout.chunk
             && p.b64decode(Segment(b[j])[layout.chunk]).None?
    ensures DecodeSpec(p, layout, message).outcome == Fail(Base64Error)
  {
    var b := Nice(Scanner.Bodies(message));
    StepAfterPassed(p, layout, b, j);
    StoppedAt(p, layout, message, b, j);
  }

  /**
   * When every body found is blank, `segments` is empty and reading
   * `segments[0]` after the loop raises IndexError, with nothing logged.
   */
  lemma AllBlankRaises(p: Primitives, layout: Layout, message: string)
    requires |Scanner.Bodies(message)| > 0
    requires forall k :: 0 <= k < |Scanner.Bodies(message)| ==> Strip(Scanner.Bodies(message)[k]) == ""
    ensures DecodeSpec(p, layout, message) == Report(Fail(IndexError), [])
  {
    NiceEmpty(Scanner.Bodies(message));
  }

  /**
   * When the loop gets through but the first body has no compression field,
   * `decode` raises IndexError.
   */
  lemma FirstBodyShortRaises(p: Primitives, layout: Layout, message: string)
    requires |Scanner.Bodies(message)| > 0
    requires var b := Nice(Scanner.Bodies(message));
             && |b| > 0
             && (forall i :: 0 <= i < |b| ==> Passed(p, layout, i, Segment(b[i])))
             && |Segment(b[0])| <= CompressionField
    ensures DecodeSpec(p, layout, message).outcome == Fail(IndexError)
  {
    var b := Nice(Scanner.Bodies(message));
    LoopGoesIff(p, layout, b, |b|);
  }

  /** A decompressor that rejects the decoded chunks makes `decode` raise. */
  lemma DecompressRaises(p: Primitives, layout: Layout, message: string)
    requires |Scanner.Bodies(message)| > 0
    requires var b := Nice(Scanner.Bodies(message));
             && |b| > 0
             && (forall i :: 0 <= i < |b| ==> Passed(p, layout, i, Segment(b[i])))
             && |Segment(b[0])| > CompressionField
             && DecodeAll(p, InOrderChunks(layout, b, |b|)).Some?
             && p.decompress(CompressorNamed(Segment(b[0])[CompressionField]),
                             DecodeAll(p, InOrderChunks(layout, b, |b|)).value).None?
    ensures DecodeSpec(p, layout, message).outcome == Fail(DecompressError)
  {
    var b := Nice(Scanner.Bodies(message));
    LoopGoesIff(p, layout, b, |b|);
    var progress := Fold(p, layout, b, |b|);
    assert progress.Going?;
    FoldPayload(p, layout, b, |b|);
    assert DecodeSpec(p, layout, message) == Finish(p, layout, b, progress.payload, progress.log);
  }

  /**
   * When the chunks decompress but the first body has no checksum field,
   * `decode` raises IndexError instead of returning.
   */
  lemma ChecksumFieldMissingRaises(p: Primitives, layout: Layout, message: string)
    requires |Scanner.Bodies(message)| > 0
    requires var b := Nice(Scanner.Bodies(message));
             && |b| > 0
             && (forall i :: 0 <= i < |b| ==> Passed(p, layout, i, Segment(b[i])))
             && CompressionField < |Segment(b[0])| <= layout.checksum
             && DecodeAll(p, InOrderChunks(layout, b, |b|)).Some?
             && p.decompress(CompressorNamed(Segment(b[0])[CompressionField]),
                             DecodeAll(p, InOrderChunks(layout, b, |b|)).value).Some?
    ensures DecodeSpec(p, layout, message).outcome == Fail(IndexError)
  {
    var b := Nice(Scanner.Bodies(message));
    LoopGoesIff(p, layout, b, |b|);
    var progress := Fold(p, layout, b, |b|);
    assert progress.Going?;
    FoldPayload(p, layout, b, |b|);
    assert DecodeSpec(p, layout, message) == Finish(p, layout, b, progress.payload, progress.log);
  }

  /**
   * The verdict of `decode`: the payload is the decompression, with the
   * compressor the first body names, of the decoded in-order chunks; it is
   * accepted exactly when its SHA-1 is the first body's checksum, and a
   * rejection adds the file checksum warning to the loop's log.
   */
  lemma DecodeVerdict(p: Primitives, layout: Layout, message: string)
    requires DecodeSpec(p, layout, message).outcome.Done?
    ensures var r := DecodeSpec(p, layout, message);
            var b := Nice(Scanner.Bodies(message));
            && |b| > 0
            && Fold(p, layout, b, |b|).Going?
            && var first := Segment(b[0]);
               && |first| > layout.checksum && |first| > CompressionField
               && DecodeAll(p, InOrderChunks(layout, b, |b|)).Some?
               && p.decompress(CompressorNamed(first[CompressionField]),
                               DecodeAll(p, InOrderChunks(layout, b, |b|)).value) == Some(r.outcome.payload)
               && (r.outcome.ok <==> p.sha1(r.outcome.payload) == first[layout.checksum])
               && r.log == Fold(p, layout, b, |b|).log + (if r.outcome.ok then [] else [FileChecksum])
  {
    var b := Nice(Scanner.Bodies(message));
    FoldPayload(p, layout, b, |b|);
  }
}
