/** The segment walk of rmexif, as functions over the immutable input buffer:
    one step classifies the marker at the cursor and finds the extent of its
    segment, the walk repeats the step from the start of the buffer, and the
    output is the in-order concatenation of the segments the walk keeps. */
module Segments {
  import opened ByteOrder
  import opened Markers

  /** Why a scan aborts.  UnsupportedMarker is the program's own error exit;
      Truncated stands for a segment whose length field, signature bytes or
      declared extent would lie past the end of the buffer, which the program
      does not check. `at` is the offset of the segment's marker. */
  datatype Error = UnsupportedMarker(marker: u16, at: nat) | Truncated(at: nat)

  datatype Result<T> = Ok(value: T) | Err(error: Error)

  /** A segment occupying bytes [start, end) of the input; keep says whether
      it is copied to the output. */
  datatype Span = Span(start: nat, end: nat, keep: bool)

  /** The big-endian word at offset i. */
  function Word(s: seq<byte>, i: nat): (w: u16)
    requires i + 2 <= |s|
    ensures w / 0x100 == s[i] as int && w % 0x100 == s[i + 1] as int
  {
    BE16(s[i], s[i + 1])
  }

  /** The end of an entropy-coded run that starts at q: the first offset k,
      from q on, where a word that ends a scan begins, or the end of the
      buffer if there is none. */
  function ScanEnd(s: seq<byte>, q: nat): (k: nat)
    requires q <= |s|
    ensures q <= k <= |s|
    decreases |s| - q
  {
    if q == |s| then q
    else if q + 2 <= |s| && StopsScan(Word(s, q)) then q
    else ScanEnd(s, q + 1)
  }

  /** One turn of the scan loop with the cursor at p: the segment that starts
      there, or the reason the scan aborts. */
  function StepAt(s: seq<byte>, p: nat): (r: Result<Span>)
    requires p + 2 <= |s|
    ensures r.Ok? ==> r.value.start == p && p + 2 <= r.value.end <= |s|
    ensures r.Err? ==> r.error.at == p
  {
    var m := Word(s, p);
    match ShapeOf(m)
    case NoPayload => Ok(Span(p, p + 2, true))
    case LengthPrefixed =>
      if p + 4 > |s| || p + 2 + Word(s, p + 2) > |s| then Err(Truncated(p))
      else Ok(Span(p, p + 2 + Word(s, p + 2), true))
    case EntropyScan => Ok(Span(p, ScanEnd(s, p + 2), true))
    case ExifCandidate =>
      if p + 4 > |s| then Err(Truncated(p))
      else
        var end := p + 2 + Word(s, p + 2);
        if Word(s, p + 2) < |ExifHeader| then
          if end > |s| then Err(Truncated(p)) else Ok(Span(p, end, false))
        else if p + 4 + |ExifHeader| > |s| || end > |s| then Err(Truncated(p))
        else Ok(Span(p, end, !HasExifHeader(s, p + 4)))
    case Unsupported => Err(UnsupportedMarker(m, p))
  }

  /** `memcmp(payload_ptr, EXIF_HEADER, sizeof(EXIF_HEADER)) == 0`: the six
      bytes from offset i are the Exif signature. */
  predicate HasExifHeader(s: seq<byte>, i: nat)
    requires i + |ExifHeader| <= |s|
  {
    forall k :: 0 <= k < |ExifHeader| ==> s[i + k] == ExifHeader[k]
  }

  /** Every span lies inside the buffer. */
  predicate Within(s: seq<byte>, sp: seq<Span>)
  {
    forall i :: 0 <= i < |sp| ==> sp[i].start <= sp[i].end <= |s|
  }

  /** Where a sequence of segments that starts at p ends. */
  function End(sp: seq<Span>, p: nat): nat
  {
    if sp == [] then p else sp[|sp| - 1].end
  }

  /** The spans follow one another without gaps from p to q. */
  ghost predicate Tiles(sp: seq<Span>, p: nat, q: nat)
    decreases |sp|
  {
    if sp == [] then p == q
    else sp[0].start == p && sp[0].start <= sp[0].end && Tiles(sp[1..], sp[0].end, q)
  }

  /** x is the segment a step at x.start produces. */
  ghost predicate IsStep(s: seq<byte>, x: Span)
  {
    x.start + 2 <= |s| && StepAt(s, x.start) == Ok(x)
  }

  /** sp is what the loop reads when it runs from p to q without meeting an
      EOI and without aborting. */
  ghost predicate Chain(s: seq<byte>, sp: seq<Span>, p: nat, q: nat)
    decreases |sp|
  {
    if sp == [] then p == q
    else sp[0].start == p && IsStep(s, sp[0]) && Word(s, p) != EOI && Chain(s, sp[1..], sp[0].end, q)
  }

  /** sp is everything the loop reads from p until it stops normally: either
      fewer than two bytes remain, or the last segment read is the EOI. */
  ghost predicate Complete(s: seq<byte>, sp: seq<Span>, p: nat)
  {
    (Chain(s, sp, p, End(sp, p)) && End(sp, p) + 2 > |s|) ||
    (|sp| > 0 && Chain(s, sp[..|sp| - 1], p, sp[|sp| - 1].start) &&
     IsStep(s, sp[|sp| - 1]) && Word(s, sp[|sp| - 1].start) == EOI)
  }

  lemma {:induction false} ChainSnoc(s: seq<byte>, sp: seq<Span>, p: nat, x: Span)
    requires Chain(s, sp, p, x.start)
    requires IsStep(s, x) && Word(s, x.start) != EOI
    ensures Chain(s, sp + [x], p, x.end)
    decreases |sp|
  {
    if sp == [] {
      assert sp + [x] == [x];
      assert Chain(s, [x][1..], x.end, x.end);
    } else {
      ChainSnoc(s, sp[1..], sp[0].end, x);
      assert (sp + [x])[1..] == sp[1..] + [x];
    }
  }

  lemma {:induction false} ChainWithin(s: seq<byte>, sp: seq<Span>, p: nat, q: nat)
    requires Chain(s, sp, p, q)
    ensures Within(s, sp) && Tiles(sp, p, q) && p <= q && (sp != [] ==> q <= |s|)
    ensures End(sp, p) == q
    decreases |sp|
  {
    if sp != [] {
      ChainWithin(s, sp[1..], sp[0].end, q);
      assert sp[1..] != [] ==> sp[1..][|sp[1..]| - 1] == sp[|sp| - 1];
      forall i | 0 <= i < |sp| ensures sp[i].start <= sp[i].end <= |s| {
        if i > 0 { assert sp[i] == sp[1..][i - 1]; }
      }
    }
  }

  lemma CompleteCons(s: seq<byte>, x: Span, rest: seq<Span>)
    requires IsStep(s, x) && Word(s, x.start) != EOI
    requires Complete(s, rest, x.end)
    ensures Complete(s, [x] + rest, x.start) && Within(s, [x] + rest)
  {
    var r := [x] + rest;
    assert r[1..] == rest;
    assert End(r, x.start) == End(rest, x.end);
    if Chain(s, rest, x.end, End(rest, x.end)) && End(rest, x.end) + 2 > |s| {
      ChainWithin(s, r, x.start, End(r, x.start));
    } else {
      var n := |rest| - 1;
      assert r[..|r| - 1] == [x] + rest[..n];
      assert r[..|r| - 1][1..] == rest[..n];
      ChainWithin(s, r[..|r| - 1], x.start, rest[n].start);
      forall i | 0 <= i < |r| ensures r[i].start <= r[i].end <= |s| {
        if i < |r| - 1 { assert r[i] == r[..|r| - 1][i]; }
      }
    }
  }

  /** The walk from p: the segments read until the loop stops, or the reason
      it aborts. */
  function Spans(s: seq<byte>, p: nat): (r: Result<seq<Span>>)
    requires p <= |s|
    ensures r.Ok? ==> Complete(s, r.value, p) && Within(s, r.value)
    decreases |s| - p
  {
    if p + 2 > |s| then
      Ok([])
    else
      match StepAt(s, p)
      case Err(e) => Err(e)
      case Ok(x) =>
        if Word(s, p) == EOI then
          assert [x][..0] == [];
          Ok([x])
        else
          match Spans(s, x.end)
          case Err(e) => Err(e)
          case Ok(rest) =>
            CompleteCons(s, x, rest);
            Ok([x] + rest)
  }

  /** The part of the input a span contributes to the output. */
  function Piece(s: seq<byte>, x: Span): (r: seq<byte>)
    requires x.start <= x.end <= |s|
  {
    if x.keep then s[x.start..x.end] else []
  }

  /** The output written for a sequence of spans: their kept pieces in order. */
  function Emit(s: seq<byte>, sp: seq<Span>): (out: seq<byte>)
    requires Within(s, sp)
  {
    if sp == [] then [] else Piece(s, sp[0]) + Emit(s, sp[1..])
  }

  /** The number of input bytes the spans leave out of the output. */
  function Removed(sp: seq<Span>): nat
  {
    if sp == [] then 0
    else (if sp[0].keep then 0 else if sp[0].end >= sp[0].start then sp[0].end - sp[0].start else 0) + Removed(sp[1..])
  }

  /** The whole filter: the output for the walk from the start of the buffer. */
  function Strip(s: seq<byte>): (r: Result<seq<byte>>)
  {
    match Spans(s, 0)
    case Ok(sp) => Ok(Emit(s, sp))
    case Err(e) => Err(e)
  }

  /** Running the loop further after a prefix of segments. */
  function Prepend(c: seq<Span>, r: Result<seq<Span>>): Result<seq<Span>>
  {
    match r
    case Ok(rest) => Ok(c + rest)
    case Err(e) => Err(e)
  }
}
