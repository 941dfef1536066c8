# rmexif segment filter, modelled in Dafny

rmexif rewrites JPEG files in place without their Exif metadata. It reads
the whole file into memory. Then it walks the JPEG marker stream one segment
at a time, up to the EOI marker or the end of the buffer, and copies segments
into an output buffer the size of the input. Two kinds of APP1 segment are
not copied: those whose payload starts with the Exif signature, and those
whose declared length is below 6. Bytes after the point where the walk stops
are not copied either. Only if the walk succeeds is the output written back.

This project models the walk: the byte-order decode, the marker switch, the
entropy-coded scan, the Exif test and the copy. It proves what the walk does.

- `ByteOrder` (byte_order.dfy): bytes, `uint16_t` values, and the big-endian
  decode `BE16`. Also C's `&`, `|`, `<<` and `>>` on non-negative values,
  defined bit by bit (`BitAnd`, `BitOr`, `Shl`, `Shr`). `Align16` is the C
  `align16`, written with those operators, for a host of either byte order. It is proved equal to `BE16`
  when applied to a host-order load.
- `Markers` (markers.dfy): the marker codes of ITU-T T.81 Table B.1 that the
  program names, and the Exif signature `45 78 69 66 00 00`. Also the switch
  of the scan loop (`ShapeOf`: no payload, length-prefixed, entropy-coded
  scan, Exif candidate, unsupported) and the scan's stop test `StopsScan`.
- `Segments` (segments.dfy): the specification of the walk, as functions over
  the input bytes.
  - `StepAt` is one turn of the loop.
  - `Spans` is the list of segments the loop reads from the cursor.
  - `Emit` concatenates the kept segments.
  - `Strip` is the whole filter.
  - `Chain` and `Complete` define, without reference to `Spans`, what a
    reading of the buffer is.
- `WalkProperties` (walk_properties.dfy): lemmas about the walk.
  - how each marker shape moves the cursor and what it copies;
  - that `Spans` is the unique complete reading;
  - exactly when the walk aborts;
  - how long the output is and what it contains.
- `Filter` (filter.dfy): the loop itself, over arrays. `RemoveExif` moves a
  read cursor `ptr` and a write cursor `ptrOut`, as the C code does.
  `ReadSegment` is the switch, proved equal to `StepAt`. `ScanRun` is the
  inner SOS loop, proved equal to `ScanEnd`. `CopySpan` is the `memcpy`: it
  writes the source bytes at the write cursor and leaves every other byte of
  the output buffer as it was. `RemoveExif` is proved to compute `Strip`.
- `Scenarios` (scenarios.dfy): concrete streams worked through the walk.

Out-of-bounds policy: the C code checks no bounds. The model adds an explicit
error outcome, `Truncated(at)`, rather than preconditions. It is returned
whenever the program would read a length field, the six signature bytes, or
a copied span past the end of the buffer, or would move its cursor past the
end. `at` is the offset of that segment's marker. The other error,
`UnsupportedMarker(marker, at)`, is the program's own error exit.

Behaviour as written, at the points where it is easy to misread:

- An APP1 whose declared length is below 6 is dropped, not kept. The
  `continue` at rmexif.c:203 skips the copy, although the comment there
  says "not EXIF". See `WalkProperties.ExifCandidateStep` and
  `Scenarios.ShortApp1Dropped`.
- For an APP1 of length 6 or 7, the six signature bytes run past the end of
  the segment into the bytes after it (rmexif.c:205-209).
- The entropy-coded run starts right after the SOS marker (rmexif.c:179).
  The scan header's length field is scanned over like data, with no special
  treatment.
- A run ends at a word greater than 0xFF00 that is not RST0-RST7; the test
  is on the whole 16-bit word (rmexif.c:182-183).
- The signature window of a length-6 or length-7 APP1 can reach past the end
  of the buffer. The program then reads outside its buffer; the model
  reports `Truncated` (see Left out).

## Model

| member | source | states |
|---|---|---|
| `ByteOrder.BE16` | rmexif.c:50-54 | the decoded value's high byte is the first byte and its low byte the second, so it is below 0x10000 |
| `ByteOrder.Load16` | rmexif.c:135 | what `*(uint16_t *)ptr` reads: on a little-endian host the byte at ptr is the low byte of the word and the byte at ptr + 1 the high byte, on a big-endian host the other way round |
| `ByteOrder.SecondByte` | rmexif.c:52 | no contract: `xb[1]`, the byte at the higher address of a word on the given host; its meaning is `SecondByteOfLoad` |
| `ByteOrder.SecondByteOfLoad` | rmexif.c:52 | the byte at the higher address of a loaded word is the byte that was stored at ptr + 1, on either host |
| `ByteOrder.BitAnd` | rmexif.c:53 | C's `&` on unsigned values; the result is at most either operand; its meaning is `AndLowMask`, `AndShifted` and `MaskArithmetic` |
| `ByteOrder.BitOr` | rmexif.c:53 | C's `\|` on unsigned values; the result is at least either operand and at most their sum; its meaning is `OrDisjoint` |
| `ByteOrder.Shl` | rmexif.c:53 | C's `<<` on non-negative values; it never decreases its operand; its meaning is `ShlMul` |
| `ByteOrder.Shr` | rmexif.c:53 | C's `>>` on non-negative values; it never increases its operand; its meaning is `ShrDiv` and `ShrShl` |
| `ByteOrder.Align16` | rmexif.c:50-54 | `align16`: on a little-endian host the two bytes of the word are swapped, on a big-endian host the word is returned unchanged; `Align16IsBigEndian` gives its purpose |
| `ByteOrder.Align16IsBigEndian` | rmexif.c:50-54 | `align16` applied to a host-order load of two bytes gives their big-endian value, on a little-endian and on a big-endian host |
| `ByteOrder.AndLowMask` | rmexif.c:53 | `a & (2^n - 1)` is a modulo 2^n, for every a and n |
| `ByteOrder.ShlMul` | rmexif.c:53 | `v << j` on a non-negative value is v times 2^j |
| `ByteOrder.ShrDiv` | rmexif.c:53 | `v >> j` on a non-negative value is v divided by 2^j, rounded down |
| `ByteOrder.ShrShl` | rmexif.c:53 | shifting down by j undoes shifting up by j |
| `ByteOrder.AndShifted` | rmexif.c:53 | masking with a mask shifted up by j bits equals shifting down by j, masking with the unshifted mask, and shifting back up |
| `ByteOrder.HighByteMask` | rmexif.c:53 | for every 16-bit x, `x & 0xFF00` is x rounded down to a multiple of 0x100 |
| `ByteOrder.RestartMask` | rmexif.c:183 | for every 16-bit x, `x & 0xFFF8` is x rounded down to a multiple of 8 |
| `ByteOrder.OrDisjoint` | rmexif.c:53 | or-ing a multiple of 2^n with a value below 2^n is their sum |
| `ByteOrder.MaskArithmetic` | rmexif.c:53 | for every 16-bit x: `x & 0xFF` is x mod 0x100, `x & 0xFF00` is x rounded down to a multiple of 0x100, `((x & 0xFF) << 8) | ((x & 0xFF00) >> 8)` is x with its two bytes exchanged, and `x & 0xFFF8` (the restart test) is x rounded down to a multiple of 8 |
| `ByteOrder.BE16Injective` | rmexif.c:135 | different byte pairs decode to different marker or length values |
| `Markers.ShapeOf` | rmexif.c:140-217 | no contract: the switch's case labels as sets, mapped to the way each family is read; its meaning is `ShapeFamilies` |
| `Markers.StopsScan` | rmexif.c:182-183 | no contract: the test that ends a scan run, written with `BitAnd`; its meaning is `StopsScanMeaning` |
| `Markers.ShapeFamilies` | rmexif.c:140-217 | the switch maps exactly SOI, EOI and RST0-7 to no payload; exactly SOF0, SOF2, DHT, DQT, DRI, COM and APP0/APP2-15 to length-prefixed; only SOS to scan; only APP1 to Exif candidate |
| `Markers.StopsScanMeaning` | rmexif.c:182-183 | the test `w > 0xFF00 && (w & 0xFFF8) != 0xFFD0` holds if and only if w's high byte is 0xFF, its low byte is not 0x00 (stuffing) and w is not RST0-7 |
| `Markers.RecognisedMarkersStopScan` | rmexif.c:140-192 | every code the switch accepts has high byte 0xFF, and it ends a scan run unless it is a restart marker |
| `Segments.Word` | rmexif.c:135 | `align16(*(uint16_t *)ptr)`, the big-endian word at offset i: its high byte is the byte at i and its low byte the byte at i + 1 |
| `Segments.HasExifHeader` | rmexif.c:207-209 | no contract: the `memcmp` of the six bytes at the offset against `EXIF_HEADER` (rmexif.c:48, the constant `Markers.ExifHeader`); `ExifCandidateStep` states the kept case as the six bytes after the length field differing from the signature |
| `Segments.ScanEnd` | rmexif.c:179-190 | the end of an entropy-coded run lies between its start and the end of the buffer |
| `Segments.StepAt` | rmexif.c:133-217 | a successful step yields a segment starting at the cursor, at least 2 bytes long, inside the buffer; a failed one names the cursor's offset |
| `Segments.Spans` | rmexif.c:131-227 | the walk's segments form a complete reading: consecutive steps with no EOI before the last, ending at an EOI or with fewer than 2 bytes left, all inside the buffer |
| `Segments.ChainSnoc` | rmexif.c:131-227 | one more step that is not EOI, read where a chain of steps ended, extends the chain to that step's end |
| `Segments.ChainWithin` | rmexif.c:131-227 | a chain of steps from p to q lies inside the buffer, tiles [p, q) with no gap or overlap, and ends at q |
| `Segments.CompleteCons` | rmexif.c:131-227 | a non-EOI step followed by a complete reading from its end is a complete reading from its start |
| `Segments.Piece` | rmexif.c:219-222 | no contract: the bytes one segment contributes to the output, its own bytes when kept and none when dropped; its meaning is `EmitSnoc` and `EmitLength` |
| `Segments.Emit` | rmexif.c:219-222 | no contract: the output the loop's copies build, the pieces of the segments in order; its meaning is `EmitAppend`, `EmitSnoc`, `EmitLength` and `EmitAllKept` |
| `Segments.Strip` | rmexif.c:125-227 | no contract: the whole filter, the kept segments of a walk that does not abort, or the walk's error; its meaning is `StripComplete`, `StripFailure`, `StripAtEoi`, `StripAtEnd` and `StripShrinks` |
| `WalkProperties.NoPayloadStep` | rmexif.c:141-152 | SOI, RST0-7 and EOI consume exactly the 2 marker bytes, and those bytes are copied |
| `WalkProperties.LengthPrefixedStep` | rmexif.c:153-176 | a length-prefixed marker advances by 2 + its big-endian length and copies that whole span; it fails with Truncated exactly when the length field or the span does not fit |
| `WalkProperties.EntropyScanStep` | rmexif.c:177-191 | SOS copies everything from its marker to the end of the run that starts right after the marker |
| `WalkProperties.ScanEndIsFirstStop` | rmexif.c:179-190 | the run stops at the first offset from its start where two bytes remain and they end a scan, and at the end of the buffer if there is no such offset |
| `WalkProperties.ScanCrossesStuffingAndRestarts` | rmexif.c:180-186 | a stuffed FF 00 or a restart marker inside scan data never ends the run |
| `WalkProperties.ExifCandidateStep` | rmexif.c:192-213 | an APP1 always spans 2 + its length; it is kept if and only if the length is at least 6 and the 6 bytes after the length field are not `Exif\0\0` |
| `WalkProperties.ExifCandidateTruncated` | rmexif.c:199-209 | an APP1 step fails exactly when its length field, its span, or (length at least 6) its signature window runs past the buffer end |
| `WalkProperties.UnsupportedStep` | rmexif.c:214-216 | a step fails with UnsupportedMarker naming the code if and only if the code is outside the switch |
| `WalkProperties.OnlyExifCandidatesDropped` | rmexif.c:203-210 | a segment that is not copied is an APP1 |
| `WalkProperties.SpansUnfold` | rmexif.c:131-227 | after a segment other than EOI, the walk continues from that segment's end |
| `WalkProperties.SpansAfterChain` | rmexif.c:131-227 | once the loop has read a chain of segments from p to q, the walk from p is that chain followed by the walk from q |
| `WalkProperties.SpansComplete` | rmexif.c:131-227 | any complete reading of the buffer is the walk's result, so the reading is unique |
| `WalkProperties.ReachedFailureAborts` | rmexif.c:214-216 | a failing step reached by the loop aborts the whole walk with that error, so no output is produced |
| `WalkProperties.FailureWasReached` | rmexif.c:214-216 | an aborted walk failed at a segment the loop actually reached, with that segment's error |
| `WalkProperties.EmitAppend` | rmexif.c:219-222 | the output of two consecutive lists of segments is the output of the first followed by that of the second |
| `WalkProperties.EmitSnoc` | rmexif.c:219-222 | appending one segment appends exactly its copied bytes to the output |
| `WalkProperties.StripComplete` | rmexif.c:125-227 | the filter's output is the in-order concatenation of the kept spans of the complete reading from offset 0 |
| `WalkProperties.StripFailure` | rmexif.c:214-216 | a failure reached from offset 0 is the filter's result |
| `WalkProperties.StripAtEoi` | rmexif.c:224-226 | when the loop stops after an EOI, the spans it read, the EOI included, give the filter's output |
| `WalkProperties.StripAtEnd` | rmexif.c:131 | when the loop stops because fewer than two bytes remain, the spans it read give the filter's output |
| `WalkProperties.EmitLength` | rmexif.c:219-221 | for spans that tile [p, q), output length plus dropped bytes equals q - p |
| `WalkProperties.EmitAllKept` | rmexif.c:219-222 | spans that tile [p, q) and are all kept reproduce the input bytes [p, q) exactly |
| `WalkProperties.ChainSteps` | rmexif.c:131-217 | every segment of a chain is a step the switch accepts at its own offset |
| `WalkProperties.TilesSnoc` | rmexif.c:219-221 | a span starting where a tiling of [p, x.start) ends extends it to a tiling of [p, x.end) |
| `WalkProperties.CompleteTiles` | rmexif.c:131-227 | a complete reading tiles the input from its start to where the loop stopped, within the buffer, each segment a step |
| `WalkProperties.StripShrinks` | rmexif.c:219-221 | on success the output is no longer than the input, so it fits the output buffer; the difference is the dropped APP1 bytes plus the bytes after the stop point |
| `WalkProperties.StripWithoutApp1IsIdentity` | rmexif.c:219-226 | a stream whose walk meets no APP1 is copied unchanged up to where the loop stopped |
| `Filter.ScanRun` | rmexif.c:177-191 | the inner SOS loop returns exactly the end of the run `ScanEnd` |
| `Filter.CopySpan` | rmexif.c:219-222 | `memcpy` appends the span at the write cursor and leaves the bytes before and after it untouched |
| `Filter.EmitSegment` | rmexif.c:219-222 | the write cursor moves by exactly the segment's output, at most up to the read cursor; that output is appended after the bytes already written, and the bytes past the new cursor are untouched |
| `Filter.ReadSegment` | rmexif.c:133-217 | the switch returns exactly the step `StepAt` of the specification |
| `Filter.RemoveExif` | rmexif.c:125-227 | on success the count of bytes written is at most the buffer size, and those bytes are `Strip` of the input; on failure `Strip` fails with the same error |
| `Scenarios.ExifExampleWalk` | rmexif.c:131-227 | the walk reads the example as SOI, a 10-byte APP1 marked dropped, a 5-byte COM and EOI |
| `Scenarios.ExifExampleEmit` | rmexif.c:219-222 | the kept spans of that reading concatenate to SOI, the comment and EOI |
| `Scenarios.ExifExampleApp1` | rmexif.c:199-210 | the example's APP1, whose payload starts with `Exif\0\0`, is read as a 10-byte dropped segment |
| `Scenarios.ExifSegmentRemoved` | rmexif.c:192-222 | SOI, an Exif APP1 of length 8, a comment and EOI come out as SOI, the comment and EOI |
| `Scenarios.ShortApp1Walk` | rmexif.c:199-203 | an APP1 of declared length 4 is read as a 6-byte dropped segment, and the walk goes on to the EOI |
| `Scenarios.ShortApp1Dropped` | rmexif.c:199-203 | an APP1 of declared length 4 is removed |
| `Scenarios.UnsupportedMarkerAborts` | rmexif.c:214-216 | marker 0xFFF0 at offset 2 aborts with UnsupportedMarker(0xFFF0, 2) |
| `Scenarios.ScanDataRun` | rmexif.c:179-190 | the run after the SOS marker goes over FF 00 and FF D3 and stops at the EOI |
| `Scenarios.ScanDataWalk` | rmexif.c:177-191 | the stream is read as SOI, one scan segment up to the EOI, and EOI |
| `Scenarios.ScanDataCopiedThrough` | rmexif.c:177-191 | scan data containing FF 00 and FF D3 is one run that ends at the EOI; the stream is unchanged |
| `Scenarios.TrailerAfterEoiDropped` | rmexif.c:224-226 | bytes after the EOI are not copied |
| `Scenarios.App1SevenFirstPass` | rmexif.c:205-212 | an APP1 of length 7 whose signature window takes in the trailing byte is kept, and the trailing byte after it is not copied |
| `Scenarios.App1SevenSecondPass` | rmexif.c:205-209 | in the once-filtered stream that APP1's signature window runs past the buffer end |
| `Scenarios.SecondPassCanFail` | rmexif.c:205-209 | a stream that filters successfully, whose filtered output aborts with Truncated under the model's bounds policy; the program instead reads one byte past its buffer there |

## Left out

- The argument loop and the file handling: `fopen`, `fseek`/`ftell`, `fread`, `fwrite`, `fclose`, `fclose_safe`, and the skip of empty files (rmexif.c:77-123, 229-244). This is I/O; the input buffer and the output buffer of the same size are parameters of `Filter.RemoveExif`.
- `malloc`/`free` and the `goto error` cleanup (rmexif.c:101-112, 248-254). The model keeps only the success-or-error result. On error the contents of the output buffer are unspecified, because the program discards them.
- Diagnostic messages and `DEBUG_PRINT` (rmexif.c:42-46, 89-90, 138, 215). These are presentation only.
- The host byte-order probe inside `align16` reads `x` through a byte pointer. It is modelled by a host-order flag (`ByteOrder.SecondByte`), not by memory.
- The SOS loop's `length` counter (rmexif.c:178, 189). It is written and never read.
- Segments.StepAt: an APP1 that is dropped but whose declared length runs past the buffer end gives Truncated. The C program would only move its cursor past the end, which is undefined behaviour, and would then stop the loop.
- Idempotence of the filter is not claimed. An APP1 of length 6 or 7 looks at bytes after its own end, and one pass can remove those bytes. `Scenarios.SecondPassCanFail` gives a stream whose first pass succeeds. In the model the second pass then aborts with `Truncated`. The program, on the same 11 bytes, lets `memcmp` read one byte past its buffer, which is undefined behaviour. In practice `memcmp` stops at the first differing byte and the same 11 bytes are written again.
- No JPEG semantics beyond the marker structure: no pixel decoding and no reading of the scan header. The program does none of it.
