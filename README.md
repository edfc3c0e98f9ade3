# BitShuffle packet codec, modelled in Dafny

BitShuffle moves a file through a text-only channel. The encoder does four things:

1. It compresses the whole input with bz2 or gzip.
2. It cuts the compressed stream into `chunksize`-byte slices.
3. It base64-encodes each slice.
4. It wraps each encoded slice in a text record `((<<f0|f1|…>>))`.

The decoder does the reverse:

1. It finds the record bodies anywhere in a text.
2. It drops blank bodies and deletes white space.
3. It splits each body on `|`.
4. It checks each body's sequence number against its position.
5. It concatenates the chunks in the order it met them.
6. It decompresses the result and reports whether the checksum agrees.

The repository holds three revisions of this codec, and all three are modelled.

- `bitshuffle/library.py` (module `Library`):
  - Packets have 8 fields: message, compat level `1`, `base64`, compressor module name, sequence number, last sequence number, the SHA-256 of the chunk text, and the chunk.
  - The first and the last packet also carry the SHA-256 of the whole input, as a ninth field.
  - The verdict is "no chunk hash mismatched, or a file hash was seen and matches".
- `bitshuffle/bitshuffle.py` and the root `bitshuffle.py` (module `Legacy`):
  - Every packet carries the SHA-1 of the whole input.
  - The first revision has 8 fields; the second has 9, with a file name at index 6.
  - `Layout` records where the checksum and the chunk sit. `Unnamed` = (6, 7) and `Named` = (7, 8).
  - `filename: Option<string>` selects the revision: `None` is bitshuffle/bitshuffle.py, `Some(name)` is bitshuffle.py.
  - The compression type and the checksum are read from the first kept body.

Shared parts:

- `Common`:
  - the library calls, as a `Primitives` value of function fields;
  - the laws the codec relies on, as `Lawful`;
  - the decode outcomes: `Abort(code)`, `Fail(exception)` and `Done(payload, ok)`;
  - the warnings, logged with their packet index.
- `Chunker`: the `encode_data` loop shared by all three revisions.
- `Scanner`: the regular-expression extraction, as a per-line scanner. It takes the first `((<<` and the last `>>))` after it; a packet broken over two lines is not found.
- `Fields`: `split('|')`, `str.strip()` (Unicode white space) and the `re.sub` that deletes ASCII white space.

Each decoder is modelled in three parts:

- a step function for one loop iteration;
- `Fold`, a prefix fold of the step over the bodies;
- `DecodeSpec`, the whole decode.

The imperative `Decode` methods, together with their `Iteration`/`Loop`/`Conclude` helpers, are proved equal to `DecodeSpec`. The encoders are modelled the same way:

- `EncodeData` and `EncodeFile` are loops with invariants;
- they are proved equal to the functions `Chunks` and `Packets`.

The lemma files (`library_proofs.dfy`, `legacy_proofs.dfy`) characterise the decoders:

- which inputs raise;
- what is logged;
- when `ok` holds.

The round-trip files (`library_roundtrip.dfy`, `legacy_roundtrip.dfy`) prove what happens when the packets are written as the command-line front ends write them, one per line followed by a blank line. Decoding the result gives the input back with `ok` true and no warning.

Where the code and the design description of the codec disagree, the model follows the code:

- In `bitshuffle/library.py`, the design treats a sequence-number mismatch as recoverable. The code formats a `str` with `%d`, so the mismatch raises `TypeError` (lines 195-196).
- A second, different file hash is meant to produce a warning, but `"Packet" + index` raises `TypeError` instead (line 207).
- A body with fewer than 5 fields is skipped. One with 5 to 7 fields and a matching sequence number raises `IndexError`; the design says bodies with fewer than 8 fields are skipped.
- The compressor is taken from the last body (line 217), not the first.
- When every body is blank, `decode` raises `UnboundLocalError` at line 217.
- `encode_data` drops empty chunks, so a stream that compresses to nothing would give no packet. With the compressors' non-empty output this never happens, and even an empty input gives at least one packet.
- Extraction is per line and greedy, not non-greedy across lines.

## Model

| member | source | states |
|---|---|---|
| Common.ModuleName | bitshuffle/library.py:125 | `compress.__module__` is `"bz2"` exactly for the bz2 compressor; this is what `decode` tests at line 217 |
| Common.AsciiRoundTrip | bitshuffle/library.py:209 | `encode('ascii')` of an ASCII chunk text gives its bytes back |
| Common.Base64IsAscii | bitshuffle/library.py:122 | base64 output is ASCII, so the `decode()` in `encode_packet` cannot fail |
| Common.Code | bitshuffle/errors.py:19-26 | each warning is reported under one of the codes 201, 205, 301 and 302; code 301 is used exactly for chunk-hash problems |
| Common.NatToStr | bitshuffle/library.py:194 | `str(index)` is a non-empty string |
| Common.NatToStrDigits | bitshuffle/library.py:194 | `str(n)` of a natural number holds only decimal digits |
| Common.IntToStrDigits | bitshuffle/library.py:125-126 | `str(i)` holds only digits and `-`, so it contains no separator, white space or newline |
| Fields.Split | bitshuffle/library.py:193 | `split("\|")` always gives at least one field; a string without `\|` gives itself |
| Fields.SplitAtFirst | bitshuffle/library.py:193 | splitting `a + "\|" + b`, where `a` has no separator, gives `a` and then the fields of `b` |
| Fields.SplitJoin | bitshuffle/library.py:124-126 | splitting fields joined by `\|` gives the fields back when none contains `\|` |
| Fields.JoinNoChar | bitshuffle/library.py:124-126 | joined fields contain a character only if a field or the separator does |
| Fields.Join | bitshuffle/library.py:124-129 | the fields of a packet written one after the other with `\|` between them; `Fields.SplitJoin` shows splitting gives them back, `Fields.JoinNoChar` and `Fields.JoinEnds` what characters the result holds |
| Fields.JoinEnds | bitshuffle/bitshuffle.py:104-106 | a joined record starts with the first field's first character and ends with the last field's last character |
| Fields.RemoveSpace | bitshuffle/library.py:183 | the `re.sub` over `string.whitespace` leaves no ASCII white space, never lengthens a string, and leaves a string without white space unchanged |
| Fields.RemoveSpaceNoChar | bitshuffle/library.py:183 | deleting white space introduces no new character |
| Fields.RemoveSpaceEach | bitshuffle/library.py:183-184 | cleaning each of a list of strings, pointwise |
| Fields.RemoveSpaceJoin | bitshuffle/library.py:183-193 | deleting white space from joined fields is joining the cleaned fields |
| Fields.SplitRemoveSpaceJoin | bitshuffle/library.py:183-193 | cleaning and then splitting a joined record gives the cleaned fields |
| Fields.StripStart | bitshuffle/library.py:184 | the left half of `strip()`: the result is no longer than the input and does not start with white space |
| Fields.StripEnd | bitshuffle/library.py:184 | the right half of `strip()`: the result is no longer than the input and does not end with white space |
| Fields.StripStartDrops | bitshuffle/library.py:184 | `lstrip()` removes exactly a prefix of white space: the result is the rest of the input |
| Fields.StripEndDrops | bitshuffle/library.py:184 | `rstrip()` removes exactly a suffix of white space: the result is the start of the input |
| Fields.StripEmpty | bitshuffle/library.py:184 | `p.strip()` is empty exactly when every character of `p` is Unicode white space |
| Fields.Strip | bitshuffle/library.py:184 | `p.strip()`: `Fields.StripStartDrops` and `Fields.StripEndDrops` show it removes exactly the leading and trailing white space, `Fields.StripEmpty` when nothing is left |
| Scanner.FindFirst | bitshuffle/library.py:174-175 | the first occurrence of a pattern at or after a position, and no earlier one; None when there is none |
| Scanner.FindLast | bitshuffle/library.py:174-175 | the last occurrence that ends before a bound, and no later one; None when there is none |
| Scanner.LineBody | bitshuffle/library.py:174-175 | a body found on a line lies between an occurrence of `((<<` and an occurrence of `>>))`; a line without `((<<` has none |
| Scanner.Bodies | bitshuffle/library.py:174-175 | no body found by `findall` contains a newline |
| Scanner.LineBodiesNoNewline | bitshuffle/library.py:174-175 | bodies found on one line hold no newline |
| Scanner.PacketLineBody | bitshuffle/library.py:174-175 | on the line `((<<b>>))` the body found is `b` |
| Scanner.Transmit | bitshuffle/__main__.py:170-173 | writing no packets writes nothing |
| Scanner.PacketThenRest | bitshuffle/__main__.py:170-173 | a packet followed by a blank line contributes exactly its body, in front of the rest |
| Scanner.TransmitBodies | bitshuffle/__main__.py:170-173 | extracting from the written packets gives their bodies in order, when no body holds a newline |
| Chunker.PySlice | bitshuffle/library.py:97 | Python's clamped slice: empty past the end, the exact slice inside, the tail when the upper bound runs over |
| Chunker.Slices | bitshuffle/library.py:94-105 | the successive `chunksize` slices of the compressed stream; `Chunker.SlicesFlatten` and `Chunker.SlicesSizes` show they concatenate to the stream and give their sizes and number |
| Chunker.Encoded | bitshuffle/library.py:94-105 | the base64 encodings of those slices; `Chunker.EncodedSlices` relates each to its slice and `Chunker.EncodedRoundTrip` decodes them back to the stream |
| Chunker.SlicesFlatten | bitshuffle/library.py:96-105 | the slices concatenate to the compressed stream |
| Chunker.SlicesSizes | bitshuffle/library.py:96-107 | no slices exactly for an empty stream; each slice is 1..chunksize bytes and all but the last are full; their number is the ceiling of length over chunksize |
| Chunker.EncodedSlices | bitshuffle/library.py:96-100 | the k-th encoded chunk is the base64 of the k-th slice |
| Chunker.EncodedStep | bitshuffle/library.py:97-100 | one iteration emits the encoding of `data[chunkptr:chunkptr + chunksize]` and moves on to the rest |
| Chunker.RawChunks | bitshuffle/library.py:94-105 | the `while True` loop returns the encoded slices followed by the encodings of the empty tails (two for an empty stream, one otherwise) |
| Chunker.NonEmpty | bitshuffle/library.py:107 | the filter keeps only non-empty chunks, keeps all when all are non-empty, and none when all are empty |
| Chunker.NonEmptyAppend | bitshuffle/bitshuffle.py:81-84 | filtering distributes over concatenation |
| Chunker.KeepNonEmpty | bitshuffle/bitshuffle.py:81-86 | the `chunksfinal` loop computes the filter |
| Chunker.RawChunksFiltered | bitshuffle/library.py:102-107 | the filter removes exactly the empty tails, leaving the encoded slices |
| Chunker.EncodedRoundTrip | bitshuffle/library.py:93-107 | base64-decoding the chunks and concatenating them gives the compressed stream; each chunk decodes to 1..chunksize bytes, all but the last to exactly chunksize |
| Library.ShaSum | bitshuffle/library.py:76-78 | the SHA-256 hex digest holds no separator, white space or newline |
| Library.EncodeData | bitshuffle/library.py:81-107 | `encode_data` computes `Chunks`; its chunks decode and concatenate to the compressed input; there is at least one chunk |
| Library.Chunks | bitshuffle/library.py:81-107 | the chunks `encode_data` returns; `Library.EncodeData` shows they decode back to the compressed input and are never none, `Library.ChunksArePlain` that they are non-empty plain base64 |
| Library.ChunksArePlain | bitshuffle/library.py:93-107 | every chunk is non-empty ASCII base64 text without separator or white space |
| Library.Base64TextIsPlain | bitshuffle/library.py:100 | base64 text holds no `\|`, no ASCII white space and no newline, and does not end in Unicode white space |
| Library.PacketFieldsLayout | bitshuffle/library.py:120-130 | a packet has 8 fields, or 9 with a file hash, in the order msg, `1`, `base64`, module name, seqnum, seqmax, chunk hash, chunk and file hash |
| Library.EncodePacket | bitshuffle/library.py:124-131 | a packet starts with `((<<` and ends with `>>))` |
| Library.EncodePacketFields | bitshuffle/library.py:110-131 | splitting a packet's body gives its fields back: 9 with a file hash, 8 without, when msg, chunk and file hash have no `\|` |
| Library.EncodeFile | bitshuffle/library.py:134-164 | `encode_file` computes `Packets` and returns at least one packet |
| Library.PacketsOf | bitshuffle/library.py:149-164 | one packet per chunk, numbered from 0 with seqmax n-1 and the file hash on the first and the last; `Library.NumberChunks` states this numbering |
| Library.Packets | bitshuffle/library.py:134-164 | the packets `encode_file` returns; `Library.PacketAt` and `Library.PacketsLayout` give each packet's chunk and fields |
| Library.NumberChunks | bitshuffle/library.py:151-164 | the numbering loop gives packet i seqnum i and seqmax n-1, with the file hash on packets 0 and n-1 only |
| Library.SplitPacketLayout | bitshuffle/library.py:124-130 | a packet's fields carry its seqnum, its seqmax and, when given, the file hash |
| Library.PacketAt | bitshuffle/library.py:149-164 | the i-th packet encodes the i-th chunk with seqnum i, seqmax n-1 and the file hash when i is 0 or n-1 |
| Library.PacketsLayout | bitshuffle/library.py:149-164 | packet i has 9 fields exactly when i is 0 or n-1, field 4 is i, field 5 is n-1, and its ninth field is the SHA-256 of the input |
| Library.Clean | bitshuffle/library.py:183-184 | the comprehension keeps no more bodies than it is given, and none of them holds ASCII white space |
| Library.CleanEmpty | bitshuffle/library.py:183-184 | no body is kept exactly when every body is blank |
| Library.CleanOne | bitshuffle/library.py:183-184 | a single body is kept, with its white space removed, exactly when it is not blank |
| Library.CleanAppend | bitshuffle/library.py:183-184 | the clean-up works body by body and keeps their order: cleaning two runs of bodies one after the other is cleaning them together |
| Library.StepOutcomes | bitshuffle/library.py:191-215 | one iteration raises TypeError exactly on a sequence mismatch or a disagreeing file hash, and IndexError exactly on 5-7 fields with a matching seqnum; a body with fewer than 5 fields is only logged (201); otherwise the loop variable is bound and at most one chunk-hash warning is added |
| Library.Step | bitshuffle/library.py:191-215 | one iteration of the decode loop; `Library.StepOutcomes`, `LibraryProofs.StepWrong`, `LibraryProofs.StepLog`, `LibraryProofs.StepFileHash` and `LibraryProofs.StepPayload` state what it raises, counts, logs, keeps and appends |
| Library.Fold | bitshuffle/library.py:191-215 | the decode loop over the first k bodies, stopping at the first exception; `LibraryProofs.LoopRunsIff` says when it completes, and the `LibraryProofs.Fold*` lemmas what it then holds |
| Library.CrashPersists | bitshuffle/library.py:191-215 | an exception ends the loop: later bodies change nothing |
| Library.Finish | bitshuffle/library.py:217-231 | no bound `packet` raises UnboundLocalError; a result decompresses the payload with bz2 when the last body names `bz2`, else gzip; `ok` holds exactly when no chunk hash mismatched or the file hash equals the payload's SHA-256; a false `ok` logs 302 when a file hash was seen, else 301 |
| Library.DecodeSpec | bitshuffle/library.py:173-180 | `decode` exits with 202, logging nothing, exactly when no body is found |
| Library.Decode | bitshuffle/library.py:167-231 | the imperative decode computes `DecodeSpec` |
| Library.Iteration | bitshuffle/library.py:192-215 | the loop body computes one step |
| Library.Conclude | bitshuffle/library.py:217-231 | the tail of `decode` computes `Finish` |
| LibraryProofs.StepWrong | bitshuffle/library.py:209-213 | an iteration that does not raise counts one more wrong chunk exactly when the chunk's SHA-256 differs from field 6 |
| LibraryProofs.StepLog | bitshuffle/library.py:198-213 | an iteration that does not raise logs 201 for a short body, 301 for a bad chunk hash, and nothing else |
| LibraryProofs.StepFileHash | bitshuffle/library.py:203-207 | the first file hash seen is kept; a later 9-field body that does not raise agrees with it |
| LibraryProofs.StepAccepted | bitshuffle/library.py:191-215 | an iteration that does not raise met a body with fewer than 5 fields, or one in order with a chunk field that encodes and decodes |
| LibraryProofs.RunningBefore | bitshuffle/library.py:191 | if the loop is still running after k bodies, it was running after k-1 |
| LibraryProofs.FoldLast | bitshuffle/library.py:191-217 | after the loop, `packet` is bound to the fields of the last body, and unbound when there was none |
| LibraryProofs.FoldAccepted | bitshuffle/library.py:191-215 | a loop that did not raise accepted every body |
| LibraryProofs.FoldFileHashUnset | bitshuffle/library.py:203-205 | no file hash is kept exactly when no body has 9 fields |
| LibraryProofs.FoldFileHashAgrees | bitshuffle/library.py:203-207 | every 9-field body of a loop that did not raise carries the kept file hash |
| LibraryProofs.FoldWrong | bitshuffle/library.py:209-213 | the wrong-chunk count is zero exactly when every body with a sequence field has a matching chunk hash |
| LibraryProofs.FoldLogJustified | bitshuffle/library.py:198-213 | each warning the loop logs names a body that was short or had a bad chunk hash |
| LibraryProofs.FoldLogInvalid | bitshuffle/library.py:198-201 | every short body is logged with 201 |
| LibraryProofs.FoldLogChecksum | bitshuffle/library.py:209-213 | every bad chunk hash is logged with 301 |
| LibraryProofs.RunningConsistent | bitshuffle/library.py:203-207 | a loop that did not raise saw no two 9-field bodies with different file hashes |
| LibraryProofs.AcceptedRuns | bitshuffle/library.py:191-215 | an accepted body, with consistent file hashes, does not make the loop raise |
| LibraryProofs.LoopRunsIff | bitshuffle/library.py:191-215 | the loop finishes without an exception exactly when every body is accepted and all 9-field bodies agree on the file hash |
| LibraryProofs.RaisedAt | bitshuffle/library.py:191-215 | an exception in the loop is the exception `decode` ends with |
| LibraryProofs.SequenceMismatchRaises | bitshuffle/library.py:194-196 | the first body whose field 4 is not its position makes `decode` raise TypeError |
| LibraryProofs.ShortBodyRaises | bitshuffle/library.py:209 | a body in order with 5 to 7 fields makes `decode` raise IndexError |
| LibraryProofs.FileHashClashRaises | bitshuffle/library.py:206-207 | a second, different file hash makes `decode` raise TypeError |
| LibraryProofs.AllBlankUnbound | bitshuffle/library.py:183-184 | when every body found is blank, `decode` raises UnboundLocalError and logs nothing |
| LibraryProofs.DecodeVerdict | bitshuffle/library.py:203-231 | a completed decode has `ok` exactly when every chunk hash matched or some 9-field body's file hash equals the payload's SHA-256; when not ok, the last warning is 302 if a file hash was present and 301 otherwise |
| LibraryProofs.StepPayload | bitshuffle/library.py:193-215 | a body that does not make the loop raise has field 4 exactly when it has field 7, and then appends the base64 decoding of field 7 to the payload; otherwise the payload is unchanged |
| LibraryProofs.FoldPayload | bitshuffle/library.py:191-215 | a loop that did not raise holds, as payload, the decoded field 7 of every body that has one, in order, whether or not its chunk hash matched |
| LibraryProofs.DecodePayload | bitshuffle/library.py:191-218 | a completed decode returns the decompression of that payload, with bz2 when field 3 of the last body is `bz2` and gzip otherwise |
| LibraryProofs.DecodeCodes | bitshuffle/library.py:191-231 | a completed decode reports warnings only under 201, 301 and 302, never 205; a rejected payload is reported last, under 302 when a body carried a file hash and 301 otherwise |
| LibraryRoundTrip.IntToStrIsPlain | bitshuffle/library.py:125-126 | sequence numbers hold no separator, white space or newline |
| LibraryRoundTrip.TailFieldsArePlain | bitshuffle/library.py:120-130 | every field after the message holds no separator or white space |
| LibraryRoundTrip.JoinedNotBlank | bitshuffle/library.py:184 | a packet body is never blank |
| LibraryRoundTrip.CleanedJoin | bitshuffle/library.py:183-193 | cleaning and splitting a body cleans only its message field |
| LibraryRoundTrip.CleanedBody | bitshuffle/library.py:183-193 | a packet body survives the blank filter and splits back into its fields, with the message stripped of white space |
| LibraryRoundTrip.BodyHasNoNewline | bitshuffle/library.py:124-130 | a packet body holds no newline when the message holds none |
| LibraryRoundTrip.CleanKeepsAll | bitshuffle/library.py:183-184 | non-blank bodies are all kept, each cleaned |
| LibraryRoundTrip.StepRoundTrip | bitshuffle/library.py:191-215 | an encoded packet in position appends its slice, sets the file hash it carries, and logs nothing |
| LibraryRoundTrip.RoundTripFold | bitshuffle/library.py:191-215 | after k encoded bodies the payload is the first k slices, with no wrong chunk and no warning |
| LibraryRoundTrip.PacketBodies | bitshuffle/library.py:149-164 | every packet of `encode_file` is its body between `((<<` and `>>))`, one per chunk, and that body joins the chunk's fields with `\|` |
| LibraryRoundTrip.FoundAgain | bitshuffle/__main__.py:170-173 | extraction finds the written packets' bodies, in order |
| LibraryRoundTrip.CleanedPacketBodies | bitshuffle/library.py:183-193 | every body is kept and splits into its packet's fields |
| LibraryRoundTrip.FinishRoundTrip | bitshuffle/library.py:217-231 | when the loop has collected the compressed input, counted no wrong chunk, logged nothing, and its last body names the compressor, the end of `decode` returns the input with `ok` true and no warning |
| LibraryRoundTrip.LastBodyNamesCompressor | bitshuffle/library.py:217 | the last body names the compressor that was used |
| LibraryRoundTrip.LoopRoundTrip | bitshuffle/library.py:191-215 | the loop over encoded bodies rebuilds the compressed stream, keeps the file hash and logs nothing |
| LibraryRoundTrip.RoundTrip | bitshuffle/library.py:134-231 | decoding the packets of `encode_file`, written one per line with a blank line after each, gives the input back with `ok` true and no warning, for any chunk size above 0 and a message without `\|` or newline |
| Legacy.MsgIsPlain | bitshuffle/bitshuffle.py:98-99 | the fixed message holds no separator or newline and starts with a non-space |
| Legacy.CompressorNamed | bitshuffle/bitshuffle.py:63-66 | `compresstype` selects bz2 exactly when it is `"bz2"`, gzip otherwise |
| Legacy.EncodeData | bitshuffle/bitshuffle.py:52-86 | `encode_data` computes `Chunks`; its chunks decode and concatenate to the compressed input; there is at least one chunk |
| Legacy.Chunks | bitshuffle/bitshuffle.py:52-86 | the chunks `encode_data` returns; `Legacy.EncodeData` shows they decode back to the compressed input and are never none |
| Legacy.PacketFieldsLayout | bitshuffle.py:98-106 | packet fields in the order msg, `1`, `base64`, compression, seqnum, seqmax, [filename,] checksum, chunk; 8 without and 9 with a file name |
| Legacy.EncodePacket | bitshuffle/bitshuffle.py:104-107 | a packet starts with `((<<` and ends with `>>))` |
| Legacy.EncodePacketFields | bitshuffle/bitshuffle.py:89-107 | splitting a packet's body gives its fields back when chunk, checksum, compression and file name have no `\|` |
| Legacy.EncodeFile | bitshuffle/bitshuffle.py:110-130 | `encode_file` computes `Packets` and returns at least one packet |
| Legacy.PacketsOf | bitshuffle/bitshuffle.py:119-130 | one packet per chunk, numbered from 0 with seqmax n-1 and the input's SHA-1 on each; `Legacy.NumberChunks` states this numbering |
| Legacy.Packets | bitshuffle/bitshuffle.py:110-130 | the packets `encode_file` returns; `Legacy.PacketAt` and `Legacy.PacketsLayout` give each packet's chunk and fields |
| Legacy.NumberChunks | bitshuffle.py:122-130 | the numbering loop gives packet i seqnum i, seqmax n-1 and the same checksum |
| Legacy.Base64TextIsPlain | bitshuffle/bitshuffle.py:74 | base64 text holds no separator and no white space |
| Legacy.HexIsPlain | bitshuffle/bitshuffle.py:120 | a hex digest holds no separator and no white space |
| Legacy.SplitPacketLayout | bitshuffle/bitshuffle.py:104-106 | a packet splits into 8 or 9 fields carrying compression, seqnum, seqmax and checksum where `decode` reads them |
| Legacy.PacketAt | bitshuffle/bitshuffle.py:119-130 | the i-th packet encodes the i-th chunk with seqnum i, seqmax n-1 and the SHA-1 of the input; its chunk text is plain |
| Legacy.PacketsLayout | bitshuffle.py:119-130 | packet i has 9 fields with a file name and 8 without; field 4 is i, field 5 is n-1, and the checksum field is the SHA-1 of the input |
| Legacy.Nice | bitshuffle/bitshuffle.py:278-286 | `packets_nice` keeps no more bodies than were found |
| Legacy.NiceEmpty | bitshuffle/bitshuffle.py:278-286 | `packets_nice` is empty exactly when every body is blank |
| Legacy.NiceOne | bitshuffle/bitshuffle.py:278-286 | a single body is kept, with its white space removed, exactly when it is not blank |
| Legacy.NiceAppend | bitshuffle/bitshuffle.py:278-286 | the clean-up works body by body and keeps their order: cleaning two runs of bodies one after the other is cleaning them together |
| Legacy.NiceBodies | bitshuffle/bitshuffle.py:278-286 | the loop that builds `packets_nice` computes `Nice` |
| Legacy.StopPersists | bitshuffle/bitshuffle.py:291-305 | an exception ends the loop: later bodies change nothing |
| Legacy.Finish | bitshuffle/bitshuffle.py:307-314 | the tail of `decode` never exits with a code; it raises or returns |
| Legacy.DecodeSpec | bitshuffle/bitshuffle.py:267-276 | `decode` exits with 2, logging nothing, exactly when no body is found |
| Legacy.Decode | bitshuffle/bitshuffle.py:263-314 | the imperative decode computes `DecodeSpec` |
| Legacy.Loop | bitshuffle.py:267-284 | the loop over `packets` computes the fold and, when it does not raise, fills `segments[i]` with the fields of body i |
| Legacy.Iteration | bitshuffle/bitshuffle.py:292-305 | the loop body computes one step |
| Legacy.Conclude | bitshuffle/bitshuffle.py:307-314 | the tail of `decode` computes `Finish` |
| LegacyProofs.InOrderChunks | bitshuffle/bitshuffle.py:291-305 | the chunks of bodies in order are no more than the bodies |
| LegacyProofs.StepEffect | bitshuffle/bitshuffle.py:291-305 | one iteration raises exactly when a body in order lacks a chunk field or its chunk does not decode; otherwise it logs a short body or a sequence mismatch and appends the chunk only of a body in order |
| Legacy.Step | bitshuffle/bitshuffle.py:291-305 | one iteration of the decode loop; `LegacyProofs.StepEffect` states when it raises, what it logs and what it appends |
| Legacy.Fold | bitshuffle/bitshuffle.py:291-305 | the decode loop over the first k bodies, stopping at the first exception; `LegacyProofs.LoopGoesIff` says when it completes, `LegacyProofs.FoldPayload` and the log lemmas what it then holds |
| LegacyProofs.GoingStep | bitshuffle/bitshuffle.py:291-305 | the loop runs after k bodies exactly when it ran after k-1 and the k-th body passed |
| LegacyProofs.LoopGoesIff | bitshuffle/bitshuffle.py:291-305 | the loop finishes without an exception exactly when every body passes |
| LegacyProofs.FoldPayload | bitshuffle/bitshuffle.py:291-305 | the payload is the decoded chunks of exactly the bodies whose field 4 equals their position, in order |
| LegacyProofs.FoldLogJustified | bitshuffle/bitshuffle.py:294-303 | each warning names a short body or one out of order |
| LegacyProofs.FoldLogComplete | bitshuffle/bitshuffle.py:294-303 | every short body and every body out of order is warned about |
| LegacyProofs.StoppedAt | bitshuffle/bitshuffle.py:291-305 | an exception in the loop is the exception `decode` ends with |
| LegacyProofs.StepAfterPassed | bitshuffle/bitshuffle.py:291-305 | when the bodies before j passed, body j is met by a running loop |
| LegacyProofs.MissingChunkRaises | bitshuffle.py:284 | a body in order without a chunk field makes `decode` raise IndexError |
| LegacyProofs.BadChunkRaises | bitshuffle/bitshuffle.py:305 | a body in order whose chunk is not base64 makes `decode` raise |
| LegacyProofs.AllBlankRaises | bitshuffle/bitshuffle.py:307 | when every body found is blank, `segments[0]` raises IndexError and nothing is logged |
| LegacyProofs.FirstBodyShortRaises | bitshuffle/bitshuffle.py:307 | a first body without a compression field makes `decode` raise IndexError |
| LegacyProofs.DecompressRaises | bitshuffle/bitshuffle.py:307-310 | when the in-order chunks decode but the compressor named by the first body rejects them, `decode` raises |
| LegacyProofs.ChecksumFieldMissingRaises | bitshuffle/bitshuffle.py:307-312 | when the chunks decompress but the first body has no checksum field, `decode` raises IndexError |
| LegacyProofs.DecodeVerdict | bitshuffle/bitshuffle.py:305-314 | a completed decode decompresses the in-order chunks with the compressor named by the first body, and `ok` holds exactly when the payload's SHA-1 equals the first body's checksum field; only a mismatch adds a file-checksum warning |
| Legacy.Verify | bitshuffle/bitshuffle.py:387-398 | `verify()`: true exactly when the SHA-1 hex digest of the data equals the given hash; `LegacyProofs.DecodeVerdict` states the `ok` flag through it |
| Legacy.VerifyRejectsNonHex | bitshuffle/bitshuffle.py:394-397 | a given hash that is not lower-case hex never verifies |
| LegacyRoundTrip.FieldsArePlain | bitshuffle.py:98-106 | no packet field holds a separator or newline, and the fields `decode` reads hold no white space |
| LegacyRoundTrip.CleanedBody | bitshuffle.py:258-284 | a packet body survives `strip()` unchanged, holds no newline, and after cleaning splits into fields with the compression, seqnum, checksum and chunk where `decode` reads them |
| LegacyRoundTrip.ChunkAt | bitshuffle/bitshuffle.py:63-86 | the i-th chunk is the base64 of the i-th slice, non-empty and plain |
| LegacyRoundTrip.FoundAgain | bitshuffle.py:184-186 | extraction finds the written packets' bodies, in order |
| LegacyRoundTrip.NiceKeepsAll | bitshuffle/bitshuffle.py:278-286 | non-empty bodies that `strip()` leaves alone are all kept, white space deleted |
| LegacyRoundTrip.CleanedBodies | bitshuffle/bitshuffle.py:278-293 | every body is kept, and body i splits into fields with the compression type, seqnum i, the input's SHA-1 and the base64 of slice i |
| LegacyRoundTrip.StepRoundTrip | bitshuffle/bitshuffle.py:291-305 | an encoded body in position appends its slice and logs nothing |
| LegacyRoundTrip.RoundTripFold | bitshuffle/bitshuffle.py:291-305 | after k encoded bodies the payload is the first k slices and nothing is logged |
| LegacyRoundTrip.LoopRoundTrip | bitshuffle.py:270-284 | the loop over encoded bodies rebuilds the compressed stream and logs nothing |
| LegacyRoundTrip.FinishRoundTrip | bitshuffle/bitshuffle.py:307-314 | with the compressed input and a first body naming its compressor and checksum, `decode` returns the input with `ok` true |
| LegacyRoundTrip.RoundTrip | bitshuffle/bitshuffle.py:197-201 | decoding the packets of `encode_file`, written one per line with a blank line after each, gives the input back with `ok` true and no warning. This holds in both revisions, for any chunk size above 0, a compression type without `\|` or white space, and a file name without `\|` or newline |

## Left out

- The command-line front ends are not modelled, apart from the way they write packets (`Scanner.Transmit`). Left out: argument parsing, mode inference, defaults, editor discovery, temporary files, `isatty`, opening files. All of `bitshuffle/__main__.py` except lines 170-173 is out, as are `main`, `find_editor`, `infer_mode`, `set_defaults` and `check_for_file` of bitshuffle/bitshuffle.py and `main` and `get_editor` of bitshuffle.py. `encode_file` takes the bytes of the input instead of a file handle.
- `wrapper.py`, `setup.py` and `main.py` are not part of this model: a relauncher, packaging, and an unrelated tool.
- bz2, gzip, base64 and the SHA-1/SHA-256 digests are not modelled inside. They are function values in `Primitives`, and the model relies only on the laws in `Lawful`:
  - decompression inverts compression, and compressed output is never empty;
  - base64 decoding inverts encoding;
  - encoding is empty only for empty input and stays in the base64 alphabet;
  - digests are lower-case hex.
- The Python 2 gzip shims are not modelled; they fall under the gzip functions above.
- Python's lenient base64 decoding is one outcome: the decoded bytes, or None when `b64decode` raises. Which malformed texts it accepts is not modelled.
- The text of warnings and their stderr formatting are not modelled. `warn` and `exit_with_error` become a log of warnings (with `Common.Code` for their numbers) and an `Abort` outcome. bitshuffle/library.py imports `LEVELS`, which bitshuffle/errors.py does not define; the model treats `warn` as if that import worked.
- The exit with 201 at bitshuffle/library.py:177 is not modelled: `findall` never raises IndexError.
- A chunk size of 0 or a negative one is excluded (`chunksize: nat` and `requires chunksize > 0`). The front ends pass `--chunksize` on unchecked, and the source's `while True` loop then never ends: with 0 for non-empty data, with a negative size for any data, since `chunkptr` only decreases.
- `p is not ''` in the command-line revisions is modelled as string inequality. This is what CPython does for a non-empty `p` after `strip()`, but identity of strings is not modelled.
- `Text` reads each byte as the character with that code. The chunk text is base64, so this agrees with `decode()`/`decode("ascii")`.
- A body not found by the regular expression because `.*` does not cross a newline is modelled by the per-line scanner. Other regular-expression behaviour (backtracking, `\r` handling) is not modelled.
- `Legacy.Finish`: its contract says only that it never exits. What it returns on a completed decode is stated by `LegacyProofs.DecodeVerdict`, and its exceptions by `LegacyProofs.AllBlankRaises`, `LegacyProofs.FirstBodyShortRaises`, `LegacyProofs.DecompressRaises` and `LegacyProofs.ChecksumFieldMissingRaises`.
- `Legacy.Nice`: its contract bounds only the number of kept bodies. Which bodies are kept is stated by `Legacy.NiceOne` (one body: kept with its white space removed exactly when it is not blank) and `Legacy.NiceAppend` (the clean-up works body by body). `LegacyRoundTrip.NiceKeepsAll` applies this to the packets' own bodies.
- `Library.Clean`: its contract bounds only the number of kept bodies. Which bodies are kept is stated by `Library.CleanOne` and `Library.CleanAppend`, as for `Legacy.Nice`.
- `Fields.StripStart` and `Fields.StripEnd`: their contracts give only the shape of the result. `Fields.StripStartDrops` and `Fields.StripEndDrops` state that exactly a white-space prefix or suffix is dropped.
- `Scanner.Transmit`: its contract covers only the empty case. What extraction finds in its output is stated by `Scanner.TransmitBodies`.
- `Library.DecodeSpec` and `Legacy.DecodeSpec`: their contracts cover only the abort case. The other outcomes are stated by the lemmas in `library_proofs.dfy` and `legacy_proofs.dfy`. For `Library.DecodeSpec`, `LibraryProofs.DecodeVerdict` gives the `ok` flag and the warnings, and `LibraryProofs.DecodePayload` gives the payload. For `Legacy.DecodeSpec`, the same is done by `LegacyProofs.DecodeVerdict`, `LegacyProofs.DecompressRaises` and `LegacyProofs.ChecksumFieldMissingRaises`.
- Compression levels: `Lawful` lets `compress` accept every level. `bz2.compress` raises `ValueError` for a level outside 1..9, and the front ends pass the level on unchecked. The round trips (`LibraryRoundTrip.RoundTrip`, `LegacyRoundTrip.RoundTrip`) therefore speak only of levels the compressor accepts. The `ValueError` is not modelled.
