/**
 * What the loop of `decode` (bitshuffle/library.py) keeps track of, which
 * bodies make it raise, and how the verdict on the payload is reached.
 */
module LibraryProofs {
  import opened Common
  import opened Fields
  import opened Library

  /**
   * A body the loop went past without raising: either it was too short and
   * only logged, or its sequence number matched its position and its chunk
   * field exists, is ASCII and is valid base64.
   */
  predicate Accepted(p: Primitives, j: nat, f: seq<string>) {
    |f| <= SeqNumField ||
    (f[SeqNumField] == IntToStr(j) && |f| > ChunkField &&
     AsciiEncode(f[ChunkField]).Some? && p.b64decode(f[ChunkField]).Some?)
  }

  /** The chunk field hashes to the value in the chunk hash field. */
  predicate ChunkOk(p: Primitives, f: seq<string>) {
    |f| > ChunkField && AsciiEncode(f[ChunkField]).Some? &&
    ShaSum(p, AsciiEncode(f[ChunkField]).value) == f[PacketHashField]
  }

  /** What one iteration that does not raise does to the chunk count. */
  lemma StepWrong(p: Primitives, st: LibState, index: nat, body: string)
    requires Step(p, st, index, body).Running?
    ensures var f := Split(body, '|');
            Step(p, st, index, body).st.wrong ==
            st.wrong + (if |f| > SeqNumField && !ChunkOk(p, f) then 1 else 0)
  {
  }

  /** What one iteration that does not raise writes to the log. */
  lemma StepLog(p: Primitives, st: LibState, index: nat, body: string)
    requires Step(p, st, index, body).Running?
    ensures var f := Split(body, '|');
            Step(p, st, index, body).st.log ==
            st.log + (if |f| <= SeqNumField then [InvalidPacket(index)]
                      else if !ChunkOk(p, f) then [ChunkChecksum(index)] else [])
  {
  }

  /** What one iteration that does not raise does to `overall_hash`. */
  lemma StepFileHash(p: Primitives, st: LibState, index: nat, body: string)
    requires Step(p, st, index, body).Running?
    ensures var f := Split(body, '|');
            var nine := |f| == FileHashField + 1;
            && Step(p, st, index, body).st.fileHash ==
               (if nine && st.fileHash.None? then Some(f[FileHashField]) else st.fileHash)
            && (nine && st.fileHash.Some? ==> f[FileHashField] == st.fileHash.value)
  {
  }

  /** An iteration that does not raise accepted its body. */
  lemma StepAccepted(p: Primitives, st: LibState, index: nat, body: string)
    requires Step(p, st, index, body).Running?
    ensures Accepted(p, index, Split(body, '|'))
  {
  }

  /** Once the loop has run k times without raising, it ran k times without raising before. */
  lemma RunningBefore(p: Primitives, b: seq<string>, k: nat)
    requires 0 < k <= |b|
    requires Fold(p, b, k).Running?
    ensures Fold(p, b, k - 1).Running?
    ensures Fold(p, b, k) == Step(p, Fold(p, b, k - 1).st, k - 1, b[k - 1])
  {
  }

  /** The loop variable `packet` is the split of the last body seen. */
  lemma FoldLast(p: Primitives, b: seq<string>, k: nat)
    requires k <= |b|
    requires Fold(p, b, k).Running?
    ensures Fold(p, b, k).st.last == (if k == 0 then None else Some(Split(b[k - 1], '|')))
  {
    if k > 0 {
      RunningBefore(p, b, k);
      StepOutcomes(p, Fold(p, b, k - 1).st, k - 1, b[k - 1]);
    }
  }

  /** Every body before a loop that has not raised was accepted. */
  lemma {:induction false} FoldAccepted(p: Primitives, b: seq<string>, k: nat)
    requires k <= |b|
    requires Fold(p, b, k).Running?
    ensures forall j :: 0 <= j < k ==> Accepted(p, j, Split(b[j], '|'))
  {
    if k > 0 {
      RunningBefore(p, b, k);
      var st := Fold(p, b, k - 1).st;
      StepAccepted(p, st, k - 1, b[k - 1]);
      FoldAccepted(p, b, k - 1);
      forall j | 0 <= j < k ensures Accepted(p, j, Split(b[j], '|')) {
        if j == k - 1 {
          assert Step(p, st, k - 1, b[k - 1]).Running?;
        }
      }
    }
  }

  /**
   * The chunk fields of the first k bodies that have one, in order.  In a
   * loop that does not raise these are the bodies of 5 fields or more
   * (`StepPayload`), whatever their chunk hash.
   */
  function ChunkTexts(b: seq<string>, k: nat): (r: seq<string>)
    requires k <= |b|
    ensures |r| <= k
  {
    if k == 0 then []
    else
      var f := Split(b[k - 1], '|');
      ChunkTexts(b, k - 1) + (if |f| > ChunkField then [f[ChunkField]] else [])
  }

  /**
   * What an iteration that does not raise appends to `payload`: the decoded
   * chunk of any body with a sequence field, even when its chunk hash
   * differs, and nothing for a short body.
   */
  lemma StepPayload(p: Primitives, st: LibState, index: nat, body: string)
    requires Step(p, st, index, body).Running?
    ensures var f := Split(body, '|');
            && (|f| > SeqNumField <==> |f| > ChunkField)
            && (|f| > ChunkField ==> p.b64decode(f[ChunkField]).Some?)
            && Step(p, st, index, body).st.payload ==
               st.payload + (if |f| > ChunkField then p.b64decode(f[ChunkField]).value else [])
  {
  }

  /** After k iterations that did not raise, `payload` is the decoded chunk fields, in encounter order. */
  lemma {:induction false} FoldPayload(p: Primitives, b: seq<string>, k: nat)
    requires k <= |b|
    requires Fold(p, b, k).Running?
    ensures DecodeAll(p, ChunkTexts(b, k)) == Some(Fold(p, b, k).st.payload)
  {
    if k > 0 {
      RunningBefore(p, b, k);
      var prev := Fold(p, b, k - 1).st;
      StepPayload(p, prev, k - 1, b[k - 1]);
      FoldPayload(p, b, k - 1);
      var f := Split(b[k - 1], '|');
      var texts := ChunkTexts(b, k);
      if |f| > ChunkField {
        assert texts[..|texts| - 1] == ChunkTexts(b, k - 1);
      } else {
        assert texts == ChunkTexts(b, k - 1);
      }
    }
  }

  /** What the k-th iteration does to `overall_hash`, when the loop got past it. */
  lemma FoldFileHashStep(p: Primitives, b: seq<string>, k: nat)
    requires 0 < k <= |b|
    requires Fold(p, b, k).Running?
    ensures Fold(p, b, k - 1).Running?
    ensures var f := Split(b[k - 1], '|');
            var nine := |f| == FileHashField + 1;
            var h := Fold(p, b, k - 1).st.fileHash;
            && Fold(p, b, k).st.fileHash == (if nine && h.None? then Some(f[FileHashField]) else h)
            && (nine && h.Some? ==> f[FileHashField] == h.value)
  {
    RunningBefore(p, b, k);
    StepFileHash(p, Fold(p, b, k - 1).st, k - 1, b[k - 1]);
  }

  /** `overall_hash` is unset exactly while no body seen had 9 fields. */
  lemma {:induction false} FoldFileHashUnset(p: Primitives, b: seq<string>, k: nat)
    requires k <= |b|
    requires Fold(p, b, k).Running?
    ensures Fold(p, b, k).st.fileHash.None? <==> forall j :: 0 <= j < k ==> |Split(b[j], '|')| != FileHashField + 1
  {
    if k > 0 {
      FoldFileHashStep(p, b, k);
      FoldFileHashUnset(p, b, k - 1);
      var nine := |Split(b[k - 1], '|')| == FileHashField + 1;
      assert Fold(p, b, k).st.fileHash.None? <==> Fold(p, b, k - 1).st.fileHash.None? && !nine;
      if forall j :: 0 <= j < k ==> |Split(b[j], '|')| != FileHashField + 1 {
        assert !nine;
      } else if forall j :: 0 <= j < k - 1 ==> |Split(b[j], '|')| != FileHashField + 1 {
        assert nine;
      }
    }
  }

  /** Once set, `overall_hash` is the file hash field of every 9-field body seen, which therefore all agree. */
  lemma {:induction false} FoldFileHashAgrees(p: Primitives, b: seq<string>, k: nat)
    requires k <= |b|
    requires Fold(p, b, k).Running?
    ensures var h := Fold(p, b, k).st.fileHash;
            h.Some? ==> forall j :: 0 <= j < k && |Split(b[j], '|')| == FileHashField + 1 ==>
                          Split(b[j], '|')[FileHashField] == h.value
  {
    if k > 0 {
      FoldFileHashStep(p, b, k);
      FoldFileHashUnset(p, b, k - 1);
      FoldFileHashAgrees(p, b, k - 1);
    }
  }

  /** No chunk was counted wrong exactly when every accepted chunk matched its hash. */
  lemma {:induction false} FoldWrong(p: Primitives, b: seq<string>, k: nat)
    requires k <= |b|
    requires Fold(p, b, k).Running?
    ensures Fold(p, b, k).st.wrong == 0 <==>
            forall j :: 0 <= j < k && |Split(b[j], '|')| > SeqNumField ==> ChunkOk(p, Split(b[j], '|'))
  {
    if k > 0 {
      RunningBefore(p, b, k);
      StepWrong(p, Fold(p, b, k - 1).st, k - 1, b[k - 1]);
      FoldWrong(p, b, k - 1);
      var f := Split(b[k - 1], '|');
      var bad := |f| > SeqNumField && !ChunkOk(p, f);
      assert Fold(p, b, k).st.wrong == 0 <==> Fold(p, b, k - 1).st.wrong == 0 && !bad;
      if forall j :: 0 <= j < k && |Split(b[j], '|')| > SeqNumField ==> ChunkOk(p, Split(b[j], '|')) {
        assert !bad;
      } else if forall j :: 0 <= j < k - 1 && |Split(b[j], '|')| > SeqNumField ==> ChunkOk(p, Split(b[j], '|')) {
        assert bad;
      }
    }
  }

  /** What the k-th iteration adds to the log, when the loop got past it. */
  lemma FoldLogStep(p: Primitives, b: seq<string>, k: nat)
    requires 0 < k <= |b|
    requires Fold(p, b, k).Running?
    ensures Fold(p, b, k - 1).Running?
    ensures var f := Split(b[k - 1], '|');
            Fold(p, b, k).st.log ==
            Fold(p, b, k - 1).st.log + (if |f| <= SeqNumField then [InvalidPacket(k - 1)]
                                        else if !ChunkOk(p, f) then [ChunkChecksum(k - 1)] else [])
  {
    RunningBefore(p, b, k);
    StepLog(p, Fold(p, b, k - 1).st, k - 1, b[k - 1]);
  }

  /**
   * Every warning of the loop is justified: an "invalid packet" names a
   * short body and a "bad packet checksum" a chunk that does not match its
   * hash, both among the bodies seen.
   */
  lemma {:induction false} FoldLogJustified(p: Primitives, b: seq<string>, k: nat)
    requires k <= |b|
    requires Fold(p, b, k).Running?
    ensures forall w :: w in Fold(p, b, k).st.log ==>
              || (w.InvalidPacket? && w.index < k && |Split(b[w.index], '|')| <= SeqNumField)
              || (w.ChunkChecksum? && w.index < k && |Split(b[w.index], '|')| > SeqNumField &&
                  !ChunkOk(p, Split(b[w.index], '|')))
  {
    if k > 0 {
      FoldLogStep(p, b, k);
      FoldLogJustified(p, b, k - 1);
    }
  }

  /** Every short body seen was logged as an invalid packet. */
  lemma {:induction false} FoldLogInvalid(p: Primitives, b: seq<string>, k: nat)
    requires k <= |b|
    requires Fold(p, b, k).Running?
    ensures forall j :: 0 <= j < k && |Split(b[j], '|')| <= SeqNumField ==> InvalidPacket(j) in Fold(p, b, k).st.log
  {
    if k > 0 {
      FoldLogStep(p, b, k);
      FoldLogInvalid(p, b, k - 1);
      var log := Fold(p, b, k).st.log;
      forall j | 0 <= j < k && |Split(b[j], '|')| <= SeqNumField ensures InvalidPacket(j) in log {
        if j < k - 1 {
          assert InvalidPacket(j) in Fold(p, b, k - 1).st.log;
        }
      }
    }
  }

  /** Every chunk seen that does not match its hash was logged. */
  lemma {:induction false} FoldLogChecksum(p: Primitives, b: seq<string>, k: nat)
    requires k <= |b|
    requires Fold(p, b, k).Running?
    ensures forall j :: 0 <= j < k && |Split(b[j], '|')| > SeqNumField && !ChunkOk(p, Split(b[j], '|')) ==>
              ChunkChecksum(j) in Fold(p, b, k).st.log
  {
    if k > 0 {
      FoldLogStep(p, b, k);
      FoldLogChecksum(p, b, k - 1);
      var log := Fold(p, b, k).st.log;
      forall j | 0 <= j < k && |Split(b[j], '|')| > SeqNumField && !ChunkOk(p, Split(b[j], '|'))
        ensures ChunkChecksum(j) in log
      {
        if j < k - 1 {
          assert ChunkChecksum(j) in Fold(p, b, k - 1).st.log;
        }
      }
    }
  }

  /** All 9-field bodies among the first k carry the same file hash. */
  predicate Consistent(b: seq<string>, k: nat)
    requires k <= |b|
  {
    forall i, j :: 0 <= i < k && 0 <= j < k &&
                   |Split(b[i], '|')| == FileHashField + 1 && |Split(b[j], '|')| == FileHashField + 1 ==>
                   Split(b[i], '|')[FileHashField] == Split(b[j], '|')[FileHashField]
  }

  /** The 9-field bodies a loop got past all carried the same file hash. */
  lemma RunningConsistent(p: Primitives, b: seq<string>, k: nat)
    requires k <= |b|
    requires Fold(p, b, k).Running?
    ensures Consistent(b, k)
  {
    FoldFileHashUnset(p, b, k);
    FoldFileHashAgrees(p, b, k);
  }

  /** An accepted body whose file hash agrees with the earlier ones gets through. */
  lemma AcceptedRuns(p: Primitives, b: seq<string>, k: nat)
    requires 0 < k <= |b|
    requires Fold(p, b, k - 1).Running?
    requires Accepted(p, k - 1, Split(b[k - 1], '|'))
    requires Consistent(b, k)
    ensures Fold(p, b, k).Running?
  {
    var st := Fold(p, b, k - 1).st;
    var f := Split(b[k - 1], '|');
    assert Fold(p, b, k) == Step(p, st, k - 1, b[k - 1]);
    FoldFileHashUnset(p, b, k - 1);
    FoldFileHashAgrees(p, b, k - 1);
    if |f| == FileHashField + 1 && st.fileHash.Some? {
      var i :| 0 <= i < k - 1 && |Split(b[i], '|')| == FileHashField + 1;
      assert Split(b[i], '|')[FileHashField] == st.fileHash.value;
      assert Split(b[i], '|')[FileHashField] == f[FileHashField];
    }
  }

  /**
   * The loop gets past the first k bodies without raising exactly when each
   * of them is accepted and their file hashes agree.
   */
  lemma {:induction false} LoopRunsIff(p: Primitives, b: seq<string>, k: nat)
    requires k <= |b|
    ensures Fold(p, b, k).Running? <==>
            (forall j :: 0 <= j < k ==> Accepted(p, j, Split(b[j], '|'))) && Consistent(b, k)
  {
    if k > 0 {
      LoopRunsIff(p, b, k - 1);
      if Fold(p, b, k).Running? {
        FoldAccepted(p, b, k);
        RunningConsistent(p, b, k);
      } else if (forall j :: 0 <= j < k ==> Accepted(p, j, Split(b[j], '|'))) && Consistent(b, k) {
        assert Consistent(b, k - 1);
        AcceptedRuns(p, b, k);
      }
    }
  }

  /** An exception in the loop at body j is what `decode` ends with. */
  lemma RaisedAt(p: Primitives, message: string, b: seq<string>, j: nat)
    requires |Scanner.Bodies(message)| > 0
    requires b == Clean(Scanner.Bodies(message))
    requires j < |b|
    requires Fold(p, b, j + 1).Crashed?
    ensures DecodeSpec(p, message).outcome == Fail(Fold(p, b, j + 1).error)
  {
    CrashPersists(p, b, j + 1, |b|);
  }

  /**
   * A body with a sequence number that is not its position makes `decode`
   * raise TypeError (the warning's "%d" is given a string), if the bodies
   * before it got through.
   */
  lemma SequenceMismatchRaises(p: Primitives, message: string, j: nat)
    requires |Scanner.Bodies(message)| > 0
    requires var b := Clean(Scanner.Bodies(message));
             && j < |b|
             && (forall i :: 0 <= i < j ==> Accepted(p, i, Split(b[i], '|'))) && Consistent(b, j)
             && |Split(b[j], '|')| > SeqNumField && Split(b[j], '|')[SeqNumField] != IntToStr(j)
    ensures DecodeSpec(p, message).outcome == Fail(TypeError)
  {
    var b := Clean(Scanner.Bodies(message));
    LoopRunsIff(p, b, j);
    StepOutcomes(p, Fold(p, b, j).st, j, b[j]);
    RaisedAt(p, message, b, j);
  }

  /**
   * A body of 5 to 7 fields with the right sequence number makes `decode`
   * raise IndexError when its chunk field is read.
   */
  lemma ShortBodyRaises(p: Primitives, message: string, j: nat)
    requires |Scanner.Bodies(message)| > 0
    requires var b := Clean(Scanner.Bodies(message));
             && j < |b|
             && (forall i :: 0 <= i < j ==> Accepted(p, i, Split(b[i], '|'))) && Consistent(b, j)
             && SeqNumField < |Split(b[j], '|')| <= ChunkField && Split(b[j], '|')[SeqNumField] == IntToStr(j)
    ensures DecodeSpec(p, message).outcome == Fail(IndexError)
  {
    var b := Clean(Scanner.Bodies(message));
    LoopRunsIff(p, b, j);
    StepOutcomes(p, Fold(p, b, j).st, j, b[j]);
    RaisedAt(p, message, b, j);
  }

  /**
   * Two 9-field bodies with different file hashes make `decode` raise
   * TypeError (the warning adds an int to a string) at the second one.
   */
  lemma FileHashClashRaises(p: Primitives, message: string, i: nat, j: nat)
    requires |Scanner.Bodies(message)| > 0
    requires var b := Clean(Scanner.Bodies(message));
             && i < j < |b|
             && (forall m :: 0 <= m < j ==> Accepted(p, m, Split(b[m], '|'))) && Consistent(b, j)
             && |Split(b[i], '|')| == FileHashField + 1 && |Split(b[j], '|')| == FileHashField + 1
             && Split(b[j], '|')[SeqNumField] == IntToStr(j)
             && Split(b[i], '|')[FileHashField] != Split(b[j], '|')[FileHashField]
    ensures DecodeSpec(p, message).outcome == Fail(TypeError)
  {
    var b := Clean(Scanner.Bodies(message));
    LoopRunsIff(p, b, j);
    FoldFileHashUnset(p, b, j);
    FoldFileHashAgrees(p, b, j);
    StepOutcomes(p, Fold(p, b, j).st, j, b[j]);
    RaisedAt(p, message, b, j);
  }

  /**
   * When every body found is blank the loop never binds `packet`, and
   * `decode` raises UnboundLocalError after it.
   */
  lemma AllBlankUnbound(p: Primitives, message: string)
    requires |Scanner.Bodies(message)| > 0
    requires forall k :: 0 <= k < |Scanner.Bodies(message)| ==> Strip(Scanner.Bodies(message)[k]) == ""
    ensures DecodeSpec(p, message) == Report(Fail(UnboundLocalError), [])
  {
    CleanEmpty(Scanner.Bodies(message));
  }

  /**
   * The verdict on a decoded payload: it is accepted when every chunk
   * matched its hash, or else when some 9-field body carries the payload's
   * SHA-256; a rejection ends the log with the file checksum warning when a
   * file hash was given and with the corrupt chunks warning otherwise.
   */
  lemma DecodeVerdict(p: Primitives, message: string)
    requires DecodeSpec(p, message).outcome.Done?
    ensures var r := DecodeSpec(p, message);
            var b := Clean(Scanner.Bodies(message));
            var nine := exists j :: 0 <= j < |b| && |Split(b[j], '|')| == FileHashField + 1;
            && (r.outcome.ok <==>
                || (forall j :: 0 <= j < |b| && |Split(b[j], '|')| > SeqNumField ==> ChunkOk(p, Split(b[j], '|')))
                || (exists j :: 0 <= j < |b| && |Split(b[j], '|')| == FileHashField + 1 &&
                                Split(b[j], '|')[FileHashField] == ShaSum(p, r.outcome.payload)))
            && (!r.outcome.ok ==> |r.log| > 0 && r.log[|r.log| - 1] == (if nine then FileChecksum else CorruptChunks))
  {
    var b := Clean(Scanner.Bodies(message));
    var st := Fold(p, b, |b|).st;
    FoldWrong(p, b, |b|);
    FoldFileHashUnset(p, b, |b|);
    FoldFileHashAgrees(p, b, |b|);
  }

  /**
   * The payload `decode` returns: the decoded chunk fields of all bodies,
   * in encounter order and including chunks whose hash differs,
   * decompressed with bz2 when the last body names `bz2` and gzip
   * otherwise.
   */
  lemma DecodePayload(p: Primitives, message: string)
    requires DecodeSpec(p, message).outcome.Done?
    ensures var r := DecodeSpec(p, message);
            var b := Clean(Scanner.Bodies(message));
            && |b| > 0
            && var last := Split(b[|b| - 1], '|');
               && |last| > CompressionField
               && DecodeAll(p, ChunkTexts(b, |b|)).Some?
               && p.decompress(if last[CompressionField] == "bz2" then Bz2 else Gzip,
                               DecodeAll(p, ChunkTexts(b, |b|)).value) == Some(r.outcome.payload)
  {
    var b := Clean(Scanner.Bodies(message));
    assert Fold(p, b, |b|).Running?;
    var st := Fold(p, b, |b|).st;
    assert DecodeSpec(p, message) == Finish(p, st);
    FoldLast(p, b, |b|);
    assert |b| > 0;
    FoldPayload(p, b, |b|);
  }

  /**
   * The error numbers a completed decode reports under: 201 or 301 from the
   * loop and 301 or 302 from the verdict, never 205 (a sequence mismatch
   * raises instead of warning); a rejected payload is reported last, under
   * 302 when a body carried a file hash and 301 otherwise.
   */
  lemma DecodeCodes(p: Primitives, message: string)
    requires DecodeSpec(p, message).outcome.Done?
    ensures var r := DecodeSpec(p, message);
            var b := Clean(Scanner.Bodies(message));
            var nine := exists j :: 0 <= j < |b| && |Split(b[j], '|')| == FileHashField + 1;
            && (forall w :: w in r.log ==> Code(w) in {201, 301, 302})
            && (!r.outcome.ok ==> |r.log| > 0 && Code(r.log[|r.log| - 1]) == (if nine then 302 else 301))
  {
    var b := Clean(Scanner.Bodies(message));
    assert Fold(p, b, |b|).Running?;
    var st := Fold(p, b, |b|).st;
    var r := DecodeSpec(p, message);
    assert r == Finish(p, st);
    FoldLogJustified(p, b, |b|);
    DecodeVerdict(p, message);
    forall w | w in r.log
      ensures Code(w) in {201, 301, 302}
    {
      if w !in st.log {
        assert w == FileChecksum || w == CorruptChunks;
      }
    }
  }
}
