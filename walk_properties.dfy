/** What the segment walk promises: how each marker shape moves the cursor and
    what it emits, that the walk is fully determined by the loop's stopping
    rule, when it aborts, and how the output relates to the input. */
module WalkProperties {
  import opened ByteOrder
  import opened Markers
  import opened Segments

  // ---- one step per marker shape ----

  /** SOI, RST0..RST7 and EOI: exactly the two marker bytes, copied. */
  lemma NoPayloadStep(s: seq<byte>, p: nat)
    requires p + 2 <= |s| && ShapeOf(Word(s, p)) == NoPayload
    ensures StepAt(s, p) == Ok(Span(p, p + 2, true))
    ensures Piece(s, StepAt(s, p).value) == s[p..p + 2]
  {
  }

  /** A length-prefixed segment spans the marker plus its declared length,
      and is copied whole; it aborts exactly when that span (or the length
      field itself) does not fit in the buffer. */
  lemma LengthPrefixedStep(s: seq<byte>, p: nat)
    requires p + 2 <= |s| && ShapeOf(Word(s, p)) == LengthPrefixed
    ensures StepAt(s, p).Ok? <==> p + 4 <= |s| && p + 2 + Word(s, p + 2) <= |s|
    ensures StepAt(s, p).Ok? ==>
      StepAt(s, p) == Ok(Span(p, p + 2 + Word(s, p + 2), true)) &&
      Piece(s, StepAt(s, p).value) == s[p..p + 2 + Word(s, p + 2)]
    ensures StepAt(s, p).Err? ==> StepAt(s, p) == Err(Truncated(p))
  {
  }

  /** SOS: the segment runs from the marker to the end of the entropy-coded
      run that begins right after the marker (the scan header's length field
      is not consulted), and is copied whole. */
  lemma EntropyScanStep(s: seq<byte>, p: nat)
    requires p + 2 <= |s| && Word(s, p) == SOS
    ensures StepAt(s, p) == Ok(Span(p, ScanEnd(s, p + 2), true))
    ensures Piece(s, StepAt(s, p).value) == s[p..ScanEnd(s, p + 2)]
  {
  }

  /** The run ends at the first word, from q on, that ends a scan, or at
      the end of the buffer when there is none. */
  lemma {:induction false} ScanEndIsFirstStop(s: seq<byte>, q: nat)
    requires q <= |s|
    ensures ScanEnd(s, q) < |s| ==> ScanEnd(s, q) + 2 <= |s| && StopsScan(Word(s, ScanEnd(s, q)))
    ensures forall j :: q <= j < ScanEnd(s, q) && j + 2 <= |s| ==> !StopsScan(Word(s, j))
    decreases |s| - q
  {
    if q < |s| && !(q + 2 <= |s| && StopsScan(Word(s, q))) {
      ScanEndIsFirstStop(s, q + 1);
    }
  }

  /** A stuffed byte FF 00 and a restart marker FF D0..FF D7 inside scan
      data never end the run. */
  lemma ScanCrossesStuffingAndRestarts(s: seq<byte>, q: nat, j: nat)
    requires q <= j && j + 2 <= |s|
    requires s[j] == 0xFF && (s[j + 1] == 0x00 || 0xD0 <= s[j + 1] <= 0xD7)
    ensures ScanEnd(s, q) != j
  {
    ScanEndIsFirstStop(s, q);
    StopsScanMeaning(Word(s, j));
  }

  /** APP1: the segment spans the marker plus its declared length; it is
      kept exactly when the length is at least six and the six bytes after
      the length field are not the Exif signature. */
  lemma ExifCandidateStep(s: seq<byte>, p: nat)
    requires p + 2 <= |s| && Word(s, p) == APPN + 1
    requires StepAt(s, p).Ok?
    ensures p + 4 <= |s|
    ensures StepAt(s, p).value.end == p + 2 + Word(s, p + 2)
    ensures StepAt(s, p).value.keep <==>
      Word(s, p + 2) >= 6 && p + 10 <= |s| && s[p + 4..p + 10] != ExifHeader
  {
  }

  /** When an APP1 step aborts: its length field, its declared extent, or
      (for a length of six or more) the six signature bytes lie past the end
      of the buffer. */
  lemma ExifCandidateTruncated(s: seq<byte>, p: nat)
    requires p + 2 <= |s| && Word(s, p) == APPN + 1
    ensures StepAt(s, p).Err? <==>
      p + 4 > |s| || p + 2 + Word(s, p + 2) > |s| || (Word(s, p + 2) >= 6 && p + 10 > |s|)
    ensures StepAt(s, p).Err? ==> StepAt(s, p) == Err(Truncated(p))
  {
  }

  /** Any code outside the recognised set aborts the step, naming the code. */
  lemma UnsupportedStep(s: seq<byte>, p: nat)
    requires p + 2 <= |s|
    ensures StepAt(s, p) == Err(UnsupportedMarker(Word(s, p), p)) <==> ShapeOf(Word(s, p)) == Unsupported
  {
  }

  /** Only APP1 segments are ever left out of the output. */
  lemma OnlyExifCandidatesDropped(s: seq<byte>, p: nat)
    requires p + 2 <= |s| && StepAt(s, p).Ok? && !StepAt(s, p).value.keep
    ensures Word(s, p) == APPN + 1
  {
  }

  // ---- the walk ----

  /** One turn of the loop: after a segment that is not the EOI the walk
      continues from that segment's end. */
  lemma SpansUnfold(s: seq<byte>, x: Span)
    requires IsStep(s, x) && Word(s, x.start) != EOI
    ensures Spans(s, x.start) == Prepend([x], Spans(s, x.end))
  {
  }

  lemma SeqFacts(sp: seq<Span>)
    ensures sp + [] == sp
    ensures |sp| > 0 ==> sp[..|sp| - 1] + [sp[|sp| - 1]] == sp
  {
  }

  lemma ConsAppend(x: Span, t: seq<Span>, r: seq<Span>)
    ensures [x] + (t + r) == ([x] + t) + r
  {
  }

  /** After the loop has read the segments c from p to q, the rest of the
      walk is the walk from q. */
  lemma {:induction false} SpansAfterChain(s: seq<byte>, c: seq<Span>, p: nat, q: nat)
    requires p <= |s| && Chain(s, c, p, q)
    ensures q <= |s|
    ensures Spans(s, p) == Prepend(c, Spans(s, q))
    decreases |c|
  {
    if c == [] {
      match Spans(s, p) {
        case Ok(rest) => assert [] + rest == rest;
        case Err(e) =>
      }
    } else {
      var x := c[0];
      SpansUnfold(s, x);
      SpansAfterChain(s, c[1..], x.end, q);
      assert c == [x] + c[1..];
      match Spans(s, q) {
        case Ok(rest) => ConsAppend(x, c[1..], rest);
        case Err(e) =>
      }
    }
  }

  /** The walk is unique: a complete reading of the buffer from p is the
      walk's result. */
  lemma SpansComplete(s: seq<byte>, sp: seq<Span>, p: nat)
    requires p <= |s| && Complete(s, sp, p)
    ensures Spans(s, p) == Ok(sp)
  {
    if Chain(s, sp, p, End(sp, p)) && End(sp, p) + 2 > |s| {
      SpansAfterChain(s, sp, p, End(sp, p));
      SeqFacts(sp);
    } else {
      var n := |sp| - 1;
      SpansAfterChain(s, sp[..n], p, sp[n].start);
      SeqFacts(sp);
    }
  }

  /** A marker-level failure met after reading c from p aborts the whole
      walk with that failure: no output is produced. */
  lemma ReachedFailureAborts(s: seq<byte>, c: seq<Span>, p: nat, q: nat)
    requires p <= |s| && Chain(s, c, p, q) && q + 2 <= |s| && StepAt(s, q).Err?
    ensures Spans(s, p) == Err(StepAt(s, q).error)
  {
    SpansAfterChain(s, c, p, q);
  }

  /** Conversely, an aborted walk failed at a segment the loop reached. */
  lemma {:induction false} FailureWasReached(s: seq<byte>, p: nat)
    requires p <= |s| && Spans(s, p).Err?
    ensures exists c: seq<Span>, q: nat :: Chain(s, c, p, q) && q + 2 <= |s| && StepAt(s, q) == Err(Spans(s, p).error)
    decreases |s| - p
  {
    assert Chain(s, [], p, p);
    if StepAt(s, p).Ok? {
      var x := StepAt(s, p).value;
      FailureWasReached(s, x.end);
      var c: seq<Span>, q: nat :| Chain(s, c, x.end, q) && q + 2 <= |s| && StepAt(s, q) == Err(Spans(s, x.end).error);
      assert ([x] + c)[1..] == c;
      assert Chain(s, [x] + c, p, q);
    }
  }

  // ---- the output ----

  lemma WithinAppend(s: seq<byte>, a: seq<Span>, b: seq<Span>)
    requires Within(s, a) && Within(s, b)
    ensures Within(s, a + b) && (a != [] ==> Within(s, a[1..]))
  {
    forall i | 0 <= i < |a + b| ensures (a + b)[i].start <= (a + b)[i].end <= |s| {
      if i < |a| { assert (a + b)[i] == a[i]; } else { assert (a + b)[i] == b[i - |a|]; }
    }
    if a != [] {
      forall i | 0 <= i < |a| - 1 ensures a[1..][i].start <= a[1..][i].end <= |s| {
        assert a[1..][i] == a[i + 1];
      }
    }
  }

  lemma ConcatAssoc(x: seq<byte>, y: seq<byte>, z: seq<byte>)
    ensures x + (y + z) == (x + y) + z
  {
  }

  /** The output of a non-empty sequence of spans begins with its first piece. */
  lemma EmitCons(s: seq<byte>, a: seq<Span>)
    requires Within(s, a) && a != []
    ensures Within(s, a[1..]) && Emit(s, a) == Piece(s, a[0]) + Emit(s, a[1..])
  {
    WithinAppend(s, a, []);
  }

  /** The output of a + b begins with the first piece of a. */
  lemma EmitConsAppend(s: seq<byte>, a: seq<Span>, b: seq<Span>)
    requires Within(s, a) && Within(s, b) && a != []
    ensures Within(s, a + b) && Within(s, a[1..]) && Within(s, a[1..] + b)
    ensures Emit(s, a + b) == Piece(s, a[0]) + Emit(s, a[1..] + b)
  {
    WithinAppend(s, a, b);
    WithinAppend(s, a[1..], b);
    assert (a + b)[0] == a[0] && (a + b)[1..] == a[1..] + b;
  }

  lemma {:induction false} EmitAppend(s: seq<byte>, a: seq<Span>, b: seq<Span>)
    requires Within(s, a) && Within(s, b)
    ensures Within(s, a + b) && Emit(s, a + b) == Emit(s, a) + Emit(s, b)
  {
    if a == [] {
      assert a + b == b;
    } else {
      var t, x := a[1..], Piece(s, a[0]);
      EmitConsAppend(s, a, b);
      EmitCons(s, a);
      EmitAppend(s, t, b);
      ConcatAssoc(x, Emit(s, t), Emit(s, b));
    }
  }

  lemma EmitSnoc(s: seq<byte>, sp: seq<Span>, x: Span)
    requires Within(s, sp) && x.start <= x.end <= |s|
    ensures Within(s, sp + [x]) && Emit(s, sp + [x]) == Emit(s, sp) + Piece(s, x)
  {
    EmitAppend(s, sp, [x]);
    assert [x][1..] == [];
  }

  /** A complete reading from the start of the buffer is what the filter
      emits. */
  lemma StripComplete(s: seq<byte>, sp: seq<Span>)
    requires Complete(s, sp, 0)
    ensures Within(s, sp) && Strip(s) == Ok(Emit(s, sp))
  {
    SpansComplete(s, sp, 0);
  }

  /** A failure the loop reaches from the start of the buffer is the
      filter's failure. */
  lemma StripFailure(s: seq<byte>, c: seq<Span>, q: nat)
    requires Chain(s, c, 0, q) && q + 2 <= |s| && StepAt(s, q).Err?
    ensures Strip(s) == Err(StepAt(s, q).error)
  {
    ReachedFailureAborts(s, c, 0, q);
  }

  /** The loop stops after reading an EOI: the spans read so far, the EOI
      included, are the complete reading, and their output is the filter's. */
  lemma StripAtEoi(s: seq<byte>, c: seq<Span>, x: Span)
    requires Chain(s, c, 0, x.start) && IsStep(s, x) && Word(s, x.start) == EOI
    ensures Within(s, c + [x]) && Strip(s) == Ok(Emit(s, c + [x]))
  {
    var sp := c + [x];
    assert sp[..|sp| - 1] == c && sp[|sp| - 1] == x;
    StripComplete(s, sp);
  }

  /** The loop stops because fewer than two bytes remain: the spans read so
      far are the complete reading, and their output is the filter's. */
  lemma StripAtEnd(s: seq<byte>, c: seq<Span>, q: nat)
    requires Chain(s, c, 0, q) && q + 2 > |s|
    ensures Within(s, c) && Strip(s) == Ok(Emit(s, c))
  {
    ChainWithin(s, c, 0, q);
    StripComplete(s, c);
  }

  /** The output of spans that tile [p, q) is the bytes of [p, q) less the
      bytes of the dropped spans. */
  lemma {:induction false} EmitLength(s: seq<byte>, sp: seq<Span>, p: nat, q: nat)
    requires Within(s, sp) && Tiles(sp, p, q)
    ensures p <= q && |Emit(s, sp)| + Removed(sp) == q - p
    decreases |sp|
  {
    if sp != [] {
      EmitLength(s, sp[1..], sp[0].end, q);
    }
  }

  /** Spans that tile [p, q) and are all kept reproduce the input bytes
      [p, q) exactly. */
  lemma {:induction false} EmitAllKept(s: seq<byte>, sp: seq<Span>, p: nat, q: nat)
    requires Within(s, sp) && Tiles(sp, p, q) && q <= |s|
    requires forall i :: 0 <= i < |sp| ==> sp[i].keep
    ensures p <= q && Emit(s, sp) == s[p..q]
    decreases |sp|
  {
    if sp != [] {
      EmitAllKept(s, sp[1..], sp[0].end, q);
      EmitLength(s, sp[1..], sp[0].end, q);
      assert s[p..sp[0].end] + s[sp[0].end..q] == s[p..q];
    }
  }

  lemma {:induction false} ChainSteps(s: seq<byte>, sp: seq<Span>, p: nat, q: nat)
    requires Chain(s, sp, p, q)
    ensures forall i :: 0 <= i < |sp| ==> IsStep(s, sp[i])
    decreases |sp|
  {
    if sp != [] {
      ChainSteps(s, sp[1..], sp[0].end, q);
      forall i | 0 < i < |sp| ensures IsStep(s, sp[i]) {
        assert sp[i] == sp[1..][i - 1];
      }
    }
  }

  lemma {:induction false} TilesSnoc(sp: seq<Span>, p: nat, x: Span)
    requires Tiles(sp, p, x.start) && x.start <= x.end
    ensures Tiles(sp + [x], p, x.end)
    decreases |sp|
  {
    if sp == [] {
      assert sp + [x] == [x];
      assert Tiles([x][1..], x.end, x.end);
    } else {
      TilesSnoc(sp[1..], sp[0].end, x);
      assert (sp + [x])[1..] == sp[1..] + [x];
    }
  }

  /** A complete reading tiles the input from p to where it stopped, with
      every segment a step of the loop. */
  lemma CompleteTiles(s: seq<byte>, sp: seq<Span>, p: nat)
    requires p <= |s| && Complete(s, sp, p)
    ensures Within(s, sp) && Tiles(sp, p, End(sp, p)) && End(sp, p) <= |s|
    ensures forall i :: 0 <= i < |sp| ==> IsStep(s, sp[i])
  {
    if Chain(s, sp, p, End(sp, p)) && End(sp, p) + 2 > |s| {
      ChainSteps(s, sp, p, End(sp, p));
      ChainWithin(s, sp, p, End(sp, p));
    } else {
      var n := |sp| - 1;
      var c := sp[..n];
      assert c + [sp[n]] == sp;
      ChainSteps(s, c, p, sp[n].start);
      ChainWithin(s, c, p, sp[n].start);
      TilesSnoc(c, p, sp[n]);
      forall i | 0 <= i < |sp| ensures IsStep(s, sp[i]) {
        if i < n { assert sp[i] == c[i]; }
      }
    }
  }

  /** On success the output is never longer than the input, so it fits the
      output buffer allocated at the input's size; what is missing is exactly
      the dropped APP1 segments plus the bytes after the point where the
      scan stopped. */
  lemma StripShrinks(s: seq<byte>)
    requires Strip(s).Ok?
    ensures |Strip(s).value| <= |s|
    ensures |s| - |Strip(s).value| == Removed(Spans(s, 0).value) + (|s| - End(Spans(s, 0).value, 0))
    ensures End(Spans(s, 0).value, 0) <= |s|
  {
    var sp := Spans(s, 0).value;
    CompleteTiles(s, sp, 0);
    EmitLength(s, sp, 0, End(sp, 0));
  }

  /** A stream without APP1 segments comes out unchanged, up to the point
      where the scan stopped (the EOI, or the last byte that forms no
      complete marker). */
  lemma StripWithoutApp1IsIdentity(s: seq<byte>)
    requires Spans(s, 0).Ok?
    requires forall i :: 0 <= i < |Spans(s, 0).value| ==>
      Spans(s, 0).value[i].start + 2 <= |s| && Word(s, Spans(s, 0).value[i].start) != APPN + 1
    ensures End(Spans(s, 0).value, 0) <= |s|
    ensures Strip(s) == Ok(s[..End(Spans(s, 0).value, 0)])
  {
    var sp := Spans(s, 0).value;
    CompleteTiles(s, sp, 0);
    forall i | 0 <= i < |sp| ensures sp[i].keep {
      assert IsStep(s, sp[i]);
      if !sp[i].keep { OnlyExifCandidatesDropped(s, sp[i].start); }
    }
    EmitAllKept(s, sp, 0, End(sp, 0));
  }
}
