/** The scan loop of rmexif's main as imperative code: a read cursor walks the
    input array one segment at a time and a write cursor appends every kept
    segment to the output array, which has the input's size. */
module Filter {
  import opened ByteOrder
  import opened Markers
  import opened Segments
  import opened WalkProperties

  /** The inner loop of the SOS case: advance one byte at a time from `from`
      until a word that ends entropy-coded data starts at the cursor, or the
      buffer ends. */
  method ScanRun(data: array<byte>, from: nat) returns (stop: nat)
    requires from <= data.Length
    ensures stop == ScanEnd(data[..], from)
  {
    stop := from;
    while stop < data.Length
      invariant from <= stop <= data.Length
      invariant ScanEnd(data[..], stop) == ScanEnd(data[..], from)
    {
      if data.Length - stop >= 2 {
        var maybeMarker := BE16(data[stop], data[stop + 1]);
        if StopsScan(maybeMarker) {
          break;
        }
      }
      stop := stop + 1;
    }
  }

  /** `memcpy(ptr_out, old_ptr, ptr - old_ptr)`: copy data[from..to] to
      dataOut at offset at; nothing else in dataOut changes. */
  method CopySpan(data: array<byte>, from: nat, to: nat, dataOut: array<byte>, at: nat)
    requires data != dataOut
    requires from <= to <= data.Length && at + (to - from) <= dataOut.Length
    modifies dataOut
    ensures dataOut[..at + (to - from)] == old(dataOut[..at]) + data[from..to]
    ensures dataOut[at + (to - from)..] == old(dataOut[at + (to - from)..])
  {
    forall k | 0 <= k < to - from {
      dataOut[at + k] := data[from + k];
    }
    assert dataOut[..at + (to - from)] == old(dataOut[..at]) + data[from..to] by {
      forall k | 0 <= k < at + (to - from)
        ensures dataOut[k] == (old(dataOut[..at]) + data[from..to])[k]
      {
        if k >= at { assert dataOut[k] == data[from + (k - at)]; }
      }
    }
  }

  /** The switch of the scan loop, for the segment whose marker is at
      `start`: where the cursor goes next and whether the bytes passed over
      are copied, or why the scan gives up. */
  method ReadSegment(data: array<byte>, start: nat) returns (seg: Result<Span>)
    requires start + 2 <= data.Length
    ensures seg == StepAt(data[..], start)
  {
    var marker := BE16(data[start], data[start + 1]);
    var ptr := start + 2;
    var keep := true;
    match ShapeOf(marker) {
      case NoPayload =>
      case LengthPrefixed =>
        if ptr + 2 > data.Length {
          return Err(Truncated(start));
        }
        var length := BE16(data[ptr], data[ptr + 1]);
        if ptr + length > data.Length {
          return Err(Truncated(start));
        }
        ptr := ptr + length;
      case EntropyScan =>
        ptr := ScanRun(data, ptr);
      case ExifCandidate =>
        if ptr + 2 > data.Length {
          return Err(Truncated(start));
        }
        var length := BE16(data[ptr], data[ptr + 1]);
        if length < |ExifHeader| {
          // declared too short to hold the signature: dropped all the same
          if ptr + length > data.Length {
            return Err(Truncated(start));
          }
          keep := false;
        } else {
          var payload := ptr + 2;
          if payload + |ExifHeader| > data.Length || ptr + length > data.Length {
            return Err(Truncated(start));
          }
          keep := !HasExifHeader(data[..], payload);
        }
        ptr := ptr + length;
      case Unsupported =>
        return Err(UnsupportedMarker(marker, start));
    }
    return Ok(Span(start, ptr, keep));
  }

  /** `if (ptr > old_ptr) { memcpy(...); ptr_out += ptr - old_ptr; }`, reached
      only for segments the switch keeps: append the segment's output to
      dataOut at the write cursor and return the moved cursor. */
  method EmitSegment(data: array<byte>, x: Span, dataOut: array<byte>, at: nat) returns (next: nat)
    requires data != dataOut && dataOut.Length == data.Length
    requires x.start <= x.end <= data.Length && at <= x.start
    modifies dataOut
    ensures next == at + |Piece(data[..], x)| && next <= x.end
    ensures dataOut[..next] == old(dataOut[..at]) + Piece(data[..], x)
    ensures dataOut[next..] == old(dataOut[next..])
  {
    next := at;
    if x.keep {
      CopySpan(data, x.start, x.end, dataOut, at);
      next := at + (x.end - x.start);
    }
  }

  /** The scan loop.  On success it returns how many bytes it wrote
      (`ptr_out - data_out`), and those bytes are the filtered stream;
      otherwise it returns the reason it gave up, and the walk fails the
      same way. */
  method RemoveExif(data: array<byte>, dataOut: array<byte>) returns (r: Result<nat>)
    requires data != dataOut && dataOut.Length == data.Length
    modifies dataOut
    ensures r.Ok? ==> r.value <= dataOut.Length && Strip(data[..]) == Ok(dataOut[..r.value])
    ensures r.Err? ==> Strip(data[..]) == Err(r.error)
  {
    ghost var s := data[..];
    ghost var done: seq<Span> := [];
    var ptr: nat, ptrOut: nat := 0, 0;
    while ptr + 2 <= data.Length
      invariant ptrOut <= ptr <= data.Length && data[..] == s
      invariant Chain(s, done, 0, ptr)
      invariant Within(s, done) && dataOut[..ptrOut] == Emit(s, done)
      decreases data.Length - ptr
    {
      var oldPtr := ptr;
      var marker := BE16(data[ptr], data[ptr + 1]);
      var seg := ReadSegment(data, ptr);
      if seg.Err? {
        StripFailure(s, done, oldPtr);
        return Err(seg.error);
      }
      var x := seg.value;
      ptr := x.end;
      EmitSnoc(s, done, x);
      ptrOut := EmitSegment(data, x, dataOut, ptrOut);
      if marker == EOI {
        StripAtEoi(s, done, x);
        return Ok(ptrOut);
      }
      ChainSnoc(s, done, 0, x);
      done := done + [x];
    }
    StripAtEnd(s, done, ptr);
    r := Ok(ptrOut);
  }
}
