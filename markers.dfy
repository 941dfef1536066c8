/** Marker codes of the JPEG stream (ITU-T T.81, Table B.1) as rmexif knows
    them, the shape each recognised code gives its segment, and the Exif APP1
    signature. */
module Markers {
  import opened ByteOrder

  const SOI: u16 := 0xFFD8
  const SOF0: u16 := 0xFFC0
  const SOF2: u16 := 0xFFC2
  const DHT: u16 := 0xFFC4
  const DQT: u16 := 0xFFDB
  const DRI: u16 := 0xFFDD
  const SOS: u16 := 0xFFDA
  /** First of the eight restart markers RST0..RST7. */
  const RSTN: u16 := 0xFFD0
  /** First of the sixteen application markers APP0..APP15. */
  const APPN: u16 := 0xFFE0
  const COM: u16 := 0xFFFE
  const EOI: u16 := 0xFFD9

  /** The Exif APP1 signature: "Exif" followed by two NUL bytes. */
  const ExifHeader: seq<byte> := [0x45, 0x78, 0x69, 0x66, 0x00, 0x00]

  /** How the scanner consumes a segment that starts with a given marker. */
  datatype Shape =
    | NoPayload       // the two marker bytes only
    | LengthPrefixed  // marker, then a big-endian length that counts itself
    | EntropyScan     // marker, then everything up to the next real marker
    | ExifCandidate   // APP1: length-prefixed, and possibly dropped
    | Unsupported     // any other code: the scan aborts

  /** The case labels of the scanner's switch, listed as the program lists them. */
  const NoPayloadCases: set<u16> :=
    {SOI, RSTN, RSTN + 1, RSTN + 2, RSTN + 3, RSTN + 4, RSTN + 5, RSTN + 6, RSTN + 7, EOI}
  const LengthPrefixedCases: set<u16> :=
    {SOF0, SOF2, DHT, DQT, DRI, APPN, APPN + 2, APPN + 3, APPN + 4, APPN + 5, APPN + 6,
     APPN + 7, APPN + 8, APPN + 9, APPN + 10, APPN + 11, APPN + 12, APPN + 13, APPN + 14,
     APPN + 15, COM}

  /** The switch on the marker code. */
  function ShapeOf(m: u16): (r: Shape)
  {
    if m in NoPayloadCases then NoPayload
    else if m in LengthPrefixedCases then LengthPrefixed
    else if m == SOS then EntropyScan
    else if m == APPN + 1 then ExifCandidate
    else Unsupported
  }

  /** The scan loop's test for a word that ends entropy-coded data:
      `maybe_marker > 0xFF00 && (maybe_marker & 0xFFF8) != MARKER_RSTN`. */
  predicate StopsScan(w: u16)
  {
    w > 0xFF00 && BitAnd(w, 0xFFF8) != RSTN
  }

  /** The switch, read by marker family: the restart markers RSTn (n < 8)
      and the application markers APPn (n < 16) are contiguous code ranges. */
  lemma ShapeFamilies(m: u16)
    ensures ShapeOf(m) == NoPayload <==> m == SOI || m == EOI || RSTN <= m < RSTN + 8
    ensures ShapeOf(m) == LengthPrefixed <==>
      m in {SOF0, SOF2, DHT, DQT, DRI, COM} || (APPN <= m < APPN + 16 && m != APPN + 1)
    ensures ShapeOf(m) == EntropyScan <==> m == SOS
    ensures ShapeOf(m) == ExifCandidate <==> m == APPN + 1
  {
  }

  /** The arithmetic behind StopsScanMeaning: above 0xFF00 means high byte
      0xFF and low byte not 0x00, and rounding down to a multiple of 8 gives
      0xFFD0 exactly for 0xFFD0 to 0xFFD7. */
  lemma StopArithmetic(w: u16)
    ensures w > 0xFF00 <==> w / 0x100 == 0xFF && w % 0x100 != 0x00
    ensures w / 8 * 8 == RSTN <==> RSTN <= w <= RSTN + 7
  {
  }

  /** A word ends entropy-coded data exactly when its high byte is 0xFF, its
      low byte is not 0x00 (byte stuffing) and it is not a restart marker. */
  lemma StopsScanMeaning(w: u16)
    ensures StopsScan(w) <==> w / 0x100 == 0xFF && w % 0x100 != 0x00 && !(RSTN <= w <= RSTN + 7)
  {
    RestartMask(w);
    StopArithmetic(w);
  }

  /** Every recognised marker is a genuine marker word 0xFFxx, and all of them
      but the restart markers end an entropy-coded run. */
  lemma RecognisedMarkersStopScan(m: u16)
    requires ShapeOf(m) != Unsupported
    ensures m / 0x100 == 0xFF
    ensures StopsScan(m) <==> !(RSTN <= m <= RSTN + 7)
  {
    StopsScanMeaning(m);
  }
}
