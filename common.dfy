/**
 * Values shared by the three revisions of the BitShuffle packet codec:
 * bytes and text, the library primitives the codec calls (compression,
 * base64, digests) and the outcomes of a decode.
 */
module Common {

  type Byte = b: int | 0 <= b < 256

  datatype Option<T> = None | Some(value: T)

  /** The two compressors the codec can use (the `bz2` and `gzip` modules). */
  datatype Compressor = Bz2 | Gzip

  /** `compress.__module__` for the compressor's `compress` function. */
  function ModuleName(c: Compressor): (r: string)
    ensures r == "bz2" <==> c == Bz2
  {
    match c
    case Bz2 => "bz2"
    case Gzip => "gzip"
  }

  /**
   * The library calls the codec makes, as function values.  Their internals
   * are not part of this model; what the codec relies on is collected in
   * `Lawful` below.
   *   compress(c, level, data)    bz2.compress / gzip.compress
   *   decompress(c, data)         bz2.decompress / gzip.decompress; None when it raises
   *   b64encode(data)             base64.b64encode (bytes to ASCII bytes)
   *   b64decode(text)             base64.b64decode; None when it raises
   *   sha1(data), sha256(data)    hashlib's hexdigest()
   */
  datatype Primitives = Primitives(
    compress: (Compressor, int, seq<Byte>) -> seq<Byte>,
    decompress: (Compressor, seq<Byte>) -> Option<seq<Byte>>,
    b64encode: seq<Byte> -> seq<Byte>,
    b64decode: string -> Option<seq<Byte>>,
    sha1: seq<Byte> -> string,
    sha256: seq<Byte> -> string)

  /** The alphabet of RFC 4648 section 4, with the pad character. */
  predicate IsBase64Byte(b: Byte) {
    ('A' as int <= b <= 'Z' as int) || ('a' as int <= b <= 'z' as int) ||
    ('0' as int <= b <= '9' as int) || b == '+' as int || b == '/' as int || b == '=' as int
  }

  /** Lower-case hexadecimal digits, as `hexdigest()` produces. */
  predicate IsHexDigit(c: char) {
    ('0' <= c <= '9') || ('a' <= c <= 'f')
  }

  predicate IsHex(s: string) {
    forall i :: 0 <= i < |s| ==> IsHexDigit(s[i])
  }

  /** The properties of the library calls that the codec depends on. */
  ghost predicate Lawful(p: Primitives) {
    && (forall c, level, d :: p.decompress(c, p.compress(c, level, d)) == Some(d))
    && (forall c, level, d :: |p.compress(c, level, d)| > 0)
    && (forall d :: p.b64decode(Text(p.b64encode(d))) == Some(d))
    && (forall d :: |p.b64encode(d)| == 0 <==> |d| == 0)
    && (forall d, i :: 0 <= i < |p.b64encode(d)| ==> IsBase64Byte(p.b64encode(d)[i]))
    && (forall d :: IsHex(p.sha1(d)))
    && (forall d :: IsHex(p.sha256(d)))
  }

  predicate IsAscii(bs: seq<Byte>) {
    forall i :: 0 <= i < |bs| ==> bs[i] < 128
  }

  /** `bytes.decode()` of ASCII bytes: one character per byte. */
  function Text(bs: seq<Byte>): string {
    seq(|bs|, i requires 0 <= i < |bs| => bs[i] as char)
  }

  /** `str.encode('ascii')`: None when it raises UnicodeEncodeError. */
  function AsciiEncode(s: string): Option<seq<Byte>> {
    if forall i :: 0 <= i < |s| ==> (s[i] as int) < 128 then
      Some(seq(|s|, i requires 0 <= i < |s| => s[i] as int))
    else
      None
  }

  /** Encoding ASCII bytes as text and back gives the bytes again. */
  lemma AsciiRoundTrip(bs: seq<Byte>)
    requires IsAscii(bs)
    ensures AsciiEncode(Text(bs)) == Some(bs)
  {
    var t := Text(bs);
    assert forall i :: 0 <= i < |t| ==> (t[i] as int) < 128;
    assert AsciiEncode(t).value == bs;
  }

  /** Base64 output is ASCII. */
  lemma Base64IsAscii(p: Primitives, d: seq<Byte>)
    requires Lawful(p)
    ensures IsAscii(p.b64encode(d))
  {
    forall i | 0 <= i < |p.b64encode(d)| ensures p.b64encode(d)[i] < 128 {
      assert IsBase64Byte(p.b64encode(d)[i]);
    }
  }

  /** Base64-decoding texts one after the other, as `payload += b64decode(...)` does; None as soon as one does not decode. */
  function DecodeAll(p: Primitives, texts: seq<string>): Option<seq<Byte>> {
    if |texts| == 0 then Some([])
    else
      match (DecodeAll(p, texts[..|texts| - 1]), p.b64decode(texts[|texts| - 1]))
      case (Some(init), Some(last)) => Some(init + last)
      case _ => None
  }

  /** The Python exceptions that escape a decode. */
  datatype PyError =
    | TypeError            // a failing %-format or str + int in a warning
    | IndexError           // a field read past the end of a split body
    | UnicodeEncodeError   // a chunk field that is not ASCII
    | Base64Error          // base64.b64decode raised
    | DecompressError      // bz2/gzip decompress raised
    | UnboundLocalError    // the loop variable `packet` was never bound

  /** How a decode ends: exit(code), an exception, or a payload and a verdict. */
  datatype Outcome =
    | Abort(code: int)
    | Fail(error: PyError)
    | Done(payload: seq<Byte>, ok: bool)

  /** Warnings written to stderr while decoding, with the packet index. */
  datatype Warning =
    | InvalidPacket(index: nat)   // fewer than 5 fields
    | OutOfOrder(index: nat)      // sequence number differs from the position
    | ChunkChecksum(index: nat)   // chunk hash differs from its field
    | CorruptChunks               // chunks corrupted and no file hash to rescue them
    | FileChecksum                // file hash differs from the payload's

  /** The result of one decode: how it ended and what it warned about. */
  datatype Report = Report(outcome: Outcome, log: seq<Warning>)

  /** The error numbers of `ERRORS` that each warning is reported under. */
  function Code(w: Warning): (r: int)
    ensures r in {201, 205, 301, 302}
    ensures r == 301 <==> w.ChunkChecksum? || w.CorruptChunks?
  {
    match w
    case InvalidPacket(_) => 201
    case OutOfOrder(_) => 205
    case ChunkChecksum(_) => 301
    case CorruptChunks => 301
    case FileChecksum => 302
  }

  /** `str(n)` for a natural number: its decimal digits. */
  function NatToStr(n: nat): (s: string)
    ensures |s| > 0
    decreases n
  {
    if n < 10 then [(n + '0' as int) as char]
    else NatToStr(n / 10) + [((n % 10) + '0' as int) as char]
  }

  /** `str(i)` for an integer (a sequence number may be -1 in principle). */
  function IntToStr(i: int): (s: string)
    ensures |s| > 0
  {
    if i < 0 then "-" + NatToStr(-i) else NatToStr(i)
  }

  /** `str(n)` is made of decimal digits. */
  lemma {:induction false} NatToStrDigits(n: nat)
    ensures forall i :: 0 <= i < |NatToStr(n)| ==> '0' <= NatToStr(n)[i] <= '9'
    decreases n
  {
    if n >= 10 {
      NatToStrDigits(n / 10);
    }
  }

  /** `str(i)` is made of decimal digits and possibly a minus sign. */
  lemma IntToStrDigits(i: int)
    ensures forall k :: 0 <= k < |IntToStr(i)| ==> IntToStr(i)[k] == '-' || '0' <= IntToStr(i)[k] <= '9'
  {
    if i < 0 {
      NatToStrDigits(-i);
    } else {
      NatToStrDigits(i);
    }
  }
}
