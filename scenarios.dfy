/** Concrete byte streams run through the segment walk. */
module Scenarios {
  import opened ByteOrder
  import opened Markers
  import opened Segments
  import opened WalkProperties

  /** One more segment in front of a walk whose result is known. */
  lemma WalkCons(s: seq<byte>, sp: seq<Span>)
    requires |sp| > 0 && sp[0].start + 2 <= |s| && StepAt(s, sp[0].start) == Ok(sp[0])
    requires Word(s, sp[0].start) != EOI && Spans(s, sp[0].end) == Ok(sp[1..])
    ensures Spans(s, sp[0].start) == Ok(sp)
    ensures Within(s, sp) && Emit(s, sp) == Piece(s, sp[0]) + Emit(s, sp[1..])
  {
    SpansUnfold(s, sp[0]);
    assert [sp[0]] + sp[1..] == sp;
  }

  /** The output of a two-, three- or four-segment reading, piece by piece. */
  lemma EmitOfTwo(s: seq<byte>, a: Span, b: Span)
    requires a.start <= a.end <= |s| && b.start <= b.end <= |s|
    ensures Within(s, [a, b]) && Emit(s, [a, b]) == Piece(s, a) + Piece(s, b)
  {
    assert Within(s, [b]) && Within(s, [a, b]);
    assert [a, b][1..] == [b] && [b][1..] == [];
    assert Emit(s, [b]) == Piece(s, b) + [] == Piece(s, b);
  }

  lemma EmitOfThree(s: seq<byte>, a: Span, b: Span, c: Span)
    requires a.start <= a.end <= |s| && b.start <= b.end <= |s| && c.start <= c.end <= |s|
    ensures Within(s, [a, b, c]) && Emit(s, [a, b, c]) == Piece(s, a) + (Piece(s, b) + Piece(s, c))
  {
    EmitOfTwo(s, b, c);
    assert Within(s, [a, b, c]);
    assert [a, b, c][1..] == [b, c];
  }

  lemma EmitOfFour(s: seq<byte>, a: Span, b: Span, c: Span, d: Span)
    requires a.start <= a.end <= |s| && b.start <= b.end <= |s|
    requires c.start <= c.end <= |s| && d.start <= d.end <= |s|
    ensures Within(s, [a, b, c, d])
    ensures Emit(s, [a, b, c, d]) == Piece(s, a) + (Piece(s, b) + (Piece(s, c) + Piece(s, d)))
  {
    EmitOfThree(s, b, c, d);
    assert Within(s, [a, b, c, d]);
    assert [a, b, c, d][1..] == [b, c, d];
  }

  /** Where the marker codes used below fall in the switch. */
  lemma Shapes()
    ensures ShapeOf(SOI) == NoPayload && ShapeOf(EOI) == NoPayload
    ensures ShapeOf(COM) == LengthPrefixed && ShapeOf(SOS) == EntropyScan
    ensures ShapeOf(APPN + 1) == ExifCandidate && ShapeOf(0xFFF0) == Unsupported
  {
    ShapeFamilies(APPN + 1);
    ShapeFamilies(0xFFF0);
  }

  /** SOI, an Exif APP1 of length 8, a comment of length 3 and EOI. */
  const ExifExample: seq<byte> :=
    [0xFF, 0xD8,
     0xFF, 0xE1, 0x00, 0x08, 0x45, 0x78, 0x69, 0x66, 0x00, 0x00,
     0xFF, 0xFE, 0x00, 0x03, 0xAB,
     0xFF, 0xD9]

  /** The walk of ExifExample ends at its EOI. */
  lemma ExifExampleTail()
    ensures Spans(ExifExample, 17) == Ok([Span(17, 19, true)])
  {
    assert Word(ExifExample, 17) == EOI;
  }

  /** The comment of ExifExample is one 5-byte length-prefixed segment. */
  lemma ExifExampleComment()
    ensures StepAt(ExifExample, 12) == Ok(Span(12, 17, true))
  {
    assert Word(ExifExample, 12) == COM && Word(ExifExample, 14) == 3;
  }

  /** The APP1 of ExifExample carries the signature and is dropped. */
  lemma ExifExampleApp1()
    ensures StepAt(ExifExample, 2) == Ok(Span(2, 12, false))
  {
    Shapes();
    assert Word(ExifExample, 2) == APPN + 1 && Word(ExifExample, 4) == 8;
    assert HasExifHeader(ExifExample, 6);
  }

  lemma ExifExampleWalk()
    ensures Spans(ExifExample, 0) == Ok([Span(0, 2, true), Span(2, 12, false), Span(12, 17, true), Span(17, 19, true)])
  {
    var s := ExifExample;
    var soi, app1, com, eoi := Span(0, 2, true), Span(2, 12, false), Span(12, 17, true), Span(17, 19, true);
    ExifExampleTail();
    ExifExampleComment();
    assert Word(s, 12) != EOI;
    WalkCons(s, [com, eoi]);
    ExifExampleApp1();
    assert Word(s, 2) != EOI;
    WalkCons(s, [app1, com, eoi]);
    assert Word(s, 0) == SOI;
    NoPayloadStep(s, 0);
    WalkCons(s, [soi, app1, com, eoi]);
  }

  lemma ExifExampleEmit()
    ensures Within(ExifExample, [Span(0, 2, true), Span(2, 12, false), Span(12, 17, true), Span(17, 19, true)])
    ensures Emit(ExifExample, [Span(0, 2, true), Span(2, 12, false), Span(12, 17, true), Span(17, 19, true)])
         == [0xFF, 0xD8, 0xFF, 0xFE, 0x00, 0x03, 0xAB, 0xFF, 0xD9]
  {
    var s := ExifExample;
    var soi, app1, com, eoi := Span(0, 2, true), Span(2, 12, false), Span(12, 17, true), Span(17, 19, true);
    EmitOfFour(s, soi, app1, com, eoi);
    assert Piece(s, soi) == s[0..2] == [0xFF, 0xD8];
    assert Piece(s, com) == s[12..17] == [0xFF, 0xFE, 0x00, 0x03, 0xAB];
    assert Piece(s, app1) == [] && Piece(s, eoi) == s[17..19] == [0xFF, 0xD9];
    assert [0xFF, 0xD8] + ([] + ([0xFF, 0xFE, 0x00, 0x03, 0xAB] + [0xFF, 0xD9]))
        == [0xFF, 0xD8, 0xFF, 0xFE, 0x00, 0x03, 0xAB, 0xFF, 0xD9];
  }

  /** The APP1 span (10 bytes) of ExifExample disappears, everything else is
      copied. */
  lemma ExifSegmentRemoved()
    ensures Strip(ExifExample) == Ok([0xFF, 0xD8, 0xFF, 0xFE, 0x00, 0x03, 0xAB, 0xFF, 0xD9])
  {
    ExifExampleWalk();
    ExifExampleEmit();
  }

  /** SOI, an APP1 of declared length 4 and EOI. */
  const ShortApp1: seq<byte> := [0xFF, 0xD8, 0xFF, 0xE1, 0x00, 0x04, 0x12, 0x34, 0xFF, 0xD9]

  lemma ShortApp1Walk()
    ensures Spans(ShortApp1, 0) == Ok([Span(0, 2, true), Span(2, 8, false), Span(8, 10, true)])
  {
    var s := ShortApp1;
    var soi, app1, eoi := Span(0, 2, true), Span(2, 8, false), Span(8, 10, true);
    assert Word(s, 8) == EOI && Spans(s, 8) == Ok([eoi]);
    Shapes();
    assert Word(s, 2) == APPN + 1 && Word(s, 4) == 4;
    assert StepAt(s, 2) == Ok(app1);
    WalkCons(s, [app1, eoi]);
    assert Word(s, 0) == SOI;
    NoPayloadStep(s, 0);
    WalkCons(s, [soi, app1, eoi]);
  }

  /** An APP1 whose declared length (4) is below the signature's size is
      dropped as well, although it cannot hold the signature. */
  lemma ShortApp1Dropped()
    ensures Strip(ShortApp1) == Ok([0xFF, 0xD8, 0xFF, 0xD9])
  {
    var s := ShortApp1;
    var soi, app1, eoi := Span(0, 2, true), Span(2, 8, false), Span(8, 10, true);
    ShortApp1Walk();
    EmitOfThree(s, soi, app1, eoi);
    assert Piece(s, soi) == s[0..2] == [0xFF, 0xD8];
    assert Piece(s, app1) == [] && Piece(s, eoi) == s[8..10] == [0xFF, 0xD9];
    assert [0xFF, 0xD8] + ([] + [0xFF, 0xD9]) == [0xFF, 0xD8, 0xFF, 0xD9];
  }

  /** SOI, then the code 0xFFF0, which the switch does not accept. */
  const UnknownMarker: seq<byte> := [0xFF, 0xD8, 0xFF, 0xF0, 0x00, 0x02, 0xFF, 0xD9]

  /** A marker code outside the switch (0xFFF0) aborts the whole scan. */
  lemma UnsupportedMarkerAborts()
    ensures Strip(UnknownMarker) == Err(UnsupportedMarker(0xFFF0, 2))
  {
    var s := UnknownMarker;
    Shapes();
    assert Word(s, 2) == 0xFFF0;
    assert StepAt(s, 2) == Err(UnsupportedMarker(0xFFF0, 2));
    assert Word(s, 0) == SOI;
    NoPayloadStep(s, 0);
    SpansUnfold(s, Span(0, 2, true));
  }

  /** SOI, a scan whose data hold a stuffed FF 00 and a restart marker
      FF D3, and EOI. */
  const ScanData: seq<byte> := [0xFF, 0xD8, 0xFF, 0xDA, 0x12, 0xFF, 0x00, 0x34, 0xFF, 0xD3, 0x56, 0xFF, 0xD9]

  /** The run after the SOS marker ends at the EOI, at offset 11. */
  lemma ScanDataRun()
    ensures ScanEnd(ScanData, 4) == 11
  {
    var s := ScanData;
    assert Word(s, 11) == EOI;
    StopsScanMeaning(Word(s, 11));
    assert ScanEnd(s, 11) == 11;
    StopsScanMeaning(Word(s, 10));
    StopsScanMeaning(Word(s, 9));
    StopsScanMeaning(Word(s, 8));
    assert ScanEnd(s, 8) == 11;
    StopsScanMeaning(Word(s, 7));
    StopsScanMeaning(Word(s, 6));
    StopsScanMeaning(Word(s, 5));
    StopsScanMeaning(Word(s, 4));
  }

  lemma ScanDataWalk()
    ensures Spans(ScanData, 0) == Ok([Span(0, 2, true), Span(2, 11, true), Span(11, 13, true)])
  {
    var s := ScanData;
    var soi, sos, eoi := Span(0, 2, true), Span(2, 11, true), Span(11, 13, true);
    assert Word(s, 11) == EOI && Spans(s, 11) == Ok([eoi]);
    ScanDataRun();
    assert Word(s, 2) == SOS;
    EntropyScanStep(s, 2);
    WalkCons(s, [sos, eoi]);
    assert Word(s, 0) == SOI;
    NoPayloadStep(s, 0);
    WalkCons(s, [soi, sos, eoi]);
  }

  /** Scan data holding a stuffed FF 00 and a restart marker FF D3 is one
      run that ends at the EOI; the whole stream comes out unchanged. */
  lemma ScanDataCopiedThrough()
    ensures Strip(ScanData) == Ok(ScanData)
  {
    var s := ScanData;
    var soi, sos, eoi := Span(0, 2, true), Span(2, 11, true), Span(11, 13, true);
    ScanDataWalk();
    EmitOfThree(s, soi, sos, eoi);
    assert s[2..11] + s[11..13] == s[2..];
    assert s[0..2] + s[2..] == s;
  }

  /** SOI, EOI and three bytes after the EOI. */
  const Trailer: seq<byte> := [0xFF, 0xD8, 0xFF, 0xD9, 0x00, 0x11, 0x22]

  /** Bytes after the EOI are not copied. */
  lemma TrailerAfterEoiDropped()
    ensures Strip(Trailer) == Ok([0xFF, 0xD8, 0xFF, 0xD9])
  {
    var s := Trailer;
    var soi, eoi := Span(0, 2, true), Span(2, 4, true);
    assert Word(s, 2) == EOI && Spans(s, 2) == Ok([eoi]);
    assert Word(s, 0) == SOI;
    NoPayloadStep(s, 0);
    WalkCons(s, [soi, eoi]);
    EmitOfTwo(s, soi, eoi);
    assert Piece(s, soi) == s[0..2] == [0xFF, 0xD8];
    assert Piece(s, eoi) == s[2..4] == [0xFF, 0xD9];
    assert [0xFF, 0xD8] + [0xFF, 0xD9] == [0xFF, 0xD8, 0xFF, 0xD9];
  }

  /** SOI, an APP1 of length 7 without the signature, and one trailing
      byte; and the same stream without the trailing byte. */
  const App1Seven: seq<byte> := [0xFF, 0xD8, 0xFF, 0xE1, 0x00, 0x07, 0x41, 0x42, 0x43, 0x44, 0x45, 0x01]
  const App1SevenOut: seq<byte> := [0xFF, 0xD8, 0xFF, 0xE1, 0x00, 0x07, 0x41, 0x42, 0x43, 0x44, 0x45]

  /** The APP1 of App1Seven is kept: its signature window, which takes in
      the trailing byte, does not hold the signature. */
  lemma App1SevenStep()
    ensures StepAt(App1Seven, 2) == Ok(Span(2, 11, true))
  {
    var s := App1Seven;
    Shapes();
    assert Word(s, 2) == APPN + 1 && Word(s, 4) == 7;
    assert !HasExifHeader(s, 6) by { assert s[6 + 0] != ExifHeader[0]; }
  }

  lemma App1SevenFirstPass()
    ensures Strip(App1Seven) == Ok(App1SevenOut)
  {
    var s := App1Seven;
    var soi, app1 := Span(0, 2, true), Span(2, 11, true);
    assert Spans(s, 11) == Ok([]);
    assert [app1][1..] == [];
    App1SevenStep();
    assert Word(s, 2) != EOI;
    WalkCons(s, [app1]);
    assert Word(s, 0) == SOI;
    NoPayloadStep(s, 0);
    WalkCons(s, [soi, app1]);
    EmitOfTwo(s, soi, app1);
    assert s[0..2] + s[2..11] == App1SevenOut;
  }

  lemma App1SevenSecondPass()
    ensures Strip(App1SevenOut) == Err(Truncated(2))
  {
    var o := App1SevenOut;
    Shapes();
    assert Word(o, 2) == APPN + 1 && Word(o, 4) == 7;
    assert StepAt(o, 2) == Err(Truncated(2));
    assert Word(o, 0) == SOI;
    NoPayloadStep(o, 0);
    SpansUnfold(o, Span(0, 2, true));
  }

  /** Filtering twice is not always filtering once: an APP1 of length 7 reads
      its signature one byte past its own end.  In the first pass that byte
      is a lone trailing byte, which is then not copied; in the second pass
      the signature would lie past the end of the buffer. */
  lemma SecondPassCanFail()
    ensures Strip(App1Seven) == Ok(App1SevenOut) && Strip(App1SevenOut) == Err(Truncated(2))
  {
    App1SevenFirstPass();
    App1SevenSecondPass();
  }
}
