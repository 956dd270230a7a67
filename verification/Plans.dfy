/**
 The plans of WriteAt, Zero and Unmap (iscsi/sbs_adapter.go): which backend calls
 each issues, and what every prefix of them leaves on the volume.
 */
module Plans {
  import opened Words
  import opened Geometry
  import opened Calls

  /** Whether a healthy backend takes the call: block aligned, in range, within the effective limit. */
  predicate Acceptable(g: Geometry, c: Call) {
    if c.Load? || c.Patch? then true
    else
      var maxIO := EffectiveMaxIO(g.profile, g.transferLimit);
      && c.offset < TWO64 && c.length < TWO64
      && CheckBackend(g.profile, c.offset, c.length) == Accepted
      && (maxIO > 0 ==> c.length <= maxIO)
  }

  predicate AllAcceptable(g: Geometry, calls: seq<Call>) {
    forall c :: c in calls ==> Acceptable(g, c)
  }

  /** The state an operation starts in: any buffer, and a volume of the profile's size. */
  predicate Mounted(g: Geometry, st: OpState) {
    |st.volume| == g.profile.sizeBytes
  }

  /** The aligned fast path sends `data` itself; otherwise whole blocks are read, patched and written back. */
  function WritePlan(g: Geometry, offset: U64, data: Bytes): seq<Call>
    requires |data| < TWO64
  {
    if BackendAligned(g, offset, |data|) then DirectCalls(Chunks(g, offset, |data|), data)
    else
      var (start, size) := BackendRangeFor(g, offset, |data|);
      RmwCalls(Chunks(g, start, size), offset - start, data)
  }

  function DirectCalls(chunks: seq<Chunk>, data: Bytes): seq<Call> {
    [Load(data)] + WriteCalls(chunks, 0)
  }

  function RmwCalls(chunks: seq<Chunk>, d: nat, data: Bytes): seq<Call> {
    RmwPrepare(chunks, d, data) + WriteCalls(chunks, 0)
  }

  function RmwPrepare(chunks: seq<Chunk>, d: nat, data: Bytes): seq<Call> {
    [Load([])] + ReadCalls(chunks) + [Patch(d, data)]
  }

  function ZeroPlan(g: Geometry, offset: U64, length: U64): seq<Call> {
    if BackendAligned(g, offset, length) then ZeroCalls(Chunks(g, offset, length))
    else WritePlan(g, offset, Zeros(length))
  }

  // ------------------------------------------------------- acceptance of plans

  lemma RangeCallsAcceptable(g: Geometry, offset: U64, length: U64)
    requires CheckBackend(g.profile, offset, length) == Accepted
    ensures AllAcceptable(g, ReadCalls(Chunks(g, offset, length)))
    ensures AllAcceptable(g, WriteCalls(Chunks(g, offset, length), 0))
    ensures AllAcceptable(g, ZeroCalls(Chunks(g, offset, length)))
    ensures AllAcceptable(g, DiscardCalls(Chunks(g, offset, length)))
  {
    hide Tiles, EffectiveMaxIO, Chunks;
    ChunksCorrect(g, offset, length);
    WriteCallsRanges(Chunks(g, offset, length), 0);
  }

  lemma {:induction false} WriteCallsRanges(chunks: seq<Chunk>, from: nat)
    ensures forall c :: c in WriteCalls(chunks, from) ==> c.Write? && Chunk(c.offset, c.length) in chunks
    decreases |chunks|
  {
    if chunks != [] {
      WriteCallsRanges(chunks[1..], from + chunks[0].length);
    }
  }

  lemma WritePlanAcceptable(g: Geometry, offset: U64, data: Bytes)
    requires Sound(g) && |data| < TWO64 && Within(g, offset, |data|)
    ensures AllAcceptable(g, WritePlan(g, offset, data))
  {
    var r := BackendRangeFor(g, offset, |data|);
    WidenedRange(g, offset, |data|);
    WidenedAccepted(g, offset, |data|);
    RangeCallsAcceptable(g, r.0, r.1);
  }

  // ------------------------------------------------------- effect of plans

  /** Writing back part of a patched block changes only the patched bytes. */
  lemma PatchedBlockPrefix(v: Bytes, start: nat, size: nat, d: nat, data: Bytes, w: nat) returns (n: nat)
    requires start + size <= |v| && d + |data| <= size && w <= size
    ensures n == (if w < d then 0 else Min(w - d, |data|))
    ensures Splice(v, start, Splice(v[start..start + size], d, data)[..w]) == Splice(v, start + d, data[..n])
  {
    n := if w < d then 0 else Min(w - d, |data|);
    var block := Splice(v[start..start + size], d, data);
    var a, b := Splice(v, start, block[..w]), Splice(v, start + d, data[..n]);
    hide Splice;
    forall i | 0 <= i < |v|
      ensures a[i] == b[i]
    {
      SpliceAt(v, start, block[..w], i);
      SpliceAt(v, start + d, data[..n], i);
      if start <= i < start + w {
        SpliceAt(v[start..start + size], d, data, i - start);
      }
    }
    assert a == b;
  }

  /**
   Wherever a write stops, bytes outside the requested range are as before, and
   inside it the new bytes come first and the old bytes after one split point.
   A completed write has written everything.
   */
  lemma WriteSplit(g: Geometry, offset: U64, data: Bytes, k: nat, st: OpState) returns (n: nat)
    requires Sound(g) && Mounted(g, st) && |data| < TWO64 && Within(g, offset, |data|)
    requires k <= |WritePlan(g, offset, data)|
    ensures n <= |data| && (k == |WritePlan(g, offset, data)| ==> n == |data|)
    ensures Exec(WritePlan(g, offset, data)[..k], st).volume == Splice(st.volume, offset, data[..n])
    ensures AllFit(WritePlan(g, offset, data), st)
  {
    hide Splice, Exec, AllFit, Tiles, CheckBackend;
    WidenedRange(g, offset, |data|);
    WidenedAccepted(g, offset, |data|);
    var (start, size) := BackendRangeFor(g, offset, |data|);
    ChunksCorrect(g, start, size);
    if BackendAligned(g, offset, |data|) {
      n := DirectSplit(Chunks(g, offset, |data|), offset, data, k, st);
    } else {
      n := RmwSplit(Chunks(g, start, size), start, size, offset - start, data, k, st);
    }
  }

  lemma DirectSplit(chunks: seq<Chunk>, offset: nat, data: Bytes, k: nat, st: OpState) returns (n: nat)
    requires Tiles(chunks, offset, |data|) && offset + |data| <= |st.volume|
    requires k <= |DirectCalls(chunks, data)|
    ensures n <= |data| && (k == |DirectCalls(chunks, data)| ==> n == |data|)
    ensures Exec(DirectCalls(chunks, data)[..k], st).volume == Splice(st.volume, offset, data[..n])
    ensures AllFit(DirectCalls(chunks, data), st)
  {
    hide Splice;
    var loaded := st.(buffer := data);
    WriteCallsEffect(chunks, offset, |data|, 0, loaded);
    ExecConcat([Load(data)], WriteCalls(chunks, 0), st);
    if k == 0 {
      n := 0;
      SpliceNothing(st.volume, offset);
    } else {
      n := TilesPrefix(chunks, offset, |data|, k - 1);
      WriteCallsTake(chunks, 0, k - 1);
      assert DirectCalls(chunks, data)[..k] == [Load(data)] + WriteCalls(chunks[..k - 1], 0);
      ExecConcat([Load(data)], WriteCalls(chunks[..k - 1], 0), st);
      WriteCallsEffect(chunks[..k - 1], offset, n, 0, loaded);
    }
  }

  lemma RmwSplit(chunks: seq<Chunk>, start: nat, size: nat, d: nat, data: Bytes, k: nat, st: OpState) returns (n: nat)
    requires Tiles(chunks, start, size) && start + size <= |st.volume| && d + |data| <= size
    requires k <= |RmwCalls(chunks, d, data)|
    ensures n <= |data| && (k == |RmwCalls(chunks, d, data)| ==> n == |data|)
    ensures Exec(RmwCalls(chunks, d, data)[..k], st).volume == Splice(st.volume, start + d, data[..n])
    ensures AllFit(RmwCalls(chunks, d, data), st)
  {
    hide Splice, Exec, AllFit;
    var first := RmwPrepare(chunks, d, data);
    var patched := OpState(st.volume, Splice(st.volume[start..start + size], d, data));
    RmwBuffer(chunks, start, size, d, data, st);
    ExecConcat(first, WriteCalls(chunks, 0), st);
    WriteCallsEffect(chunks, start, size, 0, patched);
    if k <= |first| {
      n := 0;
      assert RmwCalls(chunks, d, data)[..k] == first[..k];
      ReadCallsKeepVolume(first[..k], st);
      SpliceNothing(st.volume, start + d);
    } else {
      var j := k - |first|;
      var w := TilesPrefix(chunks, start, size, j);
      WriteCallsTake(chunks, 0, j);
      assert RmwCalls(chunks, d, data)[..k] == first + WriteCalls(chunks[..j], 0);
      ExecConcat(first, WriteCalls(chunks[..j], 0), st);
      WriteCallsEffect(chunks[..j], start, w, 0, patched);
      n := PatchedBlockPrefix(st.volume, start, size, d, data, w);
    }
  }

  /** After the reads and the patch the buffer is the old block with the new data laid over it. */
  lemma RmwBuffer(chunks: seq<Chunk>, start: nat, size: nat, d: nat, data: Bytes, st: OpState)
    requires Tiles(chunks, start, size) && start + size <= |st.volume| && d + |data| <= size
    ensures Exec(RmwPrepare(chunks, d, data), st) == OpState(st.volume, Splice(st.volume[start..start + size], d, data))
    ensures AllFit(RmwPrepare(chunks, d, data), st)
  {
    ReadCallsEffect(chunks, start, size, st.(buffer := []));
    var block := st.volume[start..start + size];
    assert [] + block == block;
    ExecConcat([Load([])], ReadCalls(chunks), st);
    ExecConcat([Load([])] + ReadCalls(chunks), [Patch(d, data)], st);
  }

  /** Wherever a zero stops, a prefix of the range is zero and nothing else has changed. */
  lemma ZeroSplit(g: Geometry, offset: U64, length: U64, k: nat, st: OpState) returns (n: nat)
    requires Sound(g) && Mounted(g, st) && Within(g, offset, length)
    requires k <= |ZeroPlan(g, offset, length)|
    ensures n <= length && (k == |ZeroPlan(g, offset, length)| ==> n == length)
    ensures Exec(ZeroPlan(g, offset, length)[..k], st).volume == Splice(st.volume, offset, Zeros(n))
    ensures AllFit(ZeroPlan(g, offset, length), st)
    ensures AllAcceptable(g, ZeroPlan(g, offset, length))
  {
    if BackendAligned(g, offset, length) {
      WidenedRange(g, offset, length);
      n := ClearSplit(g, offset, length, ZeroCalls(Chunks(g, offset, length)), k, st);
    } else {
      n := WriteSplit(g, offset, Zeros(length), k, st);
      assert Zeros(length)[..n] == Zeros(n);
      WritePlanAcceptable(g, offset, Zeros(length));
    }
  }

  lemma ClearSplit(g: Geometry, offset: U64, length: U64, calls: seq<Call>, k: nat, st: OpState) returns (n: nat)
    requires Sound(g) && Mounted(g, st) && Within(g, offset, length) && BackendAligned(g, offset, length)
    requires calls == ZeroCalls(Chunks(g, offset, length)) || calls == DiscardCalls(Chunks(g, offset, length))
    requires k <= |calls|
    ensures n <= length && (k == |calls| ==> n == length)
    ensures Exec(calls[..k], st).volume == Splice(st.volume, offset, Zeros(n))
    ensures AllFit(calls, st) && AllAcceptable(g, calls)
  {
    WidenedRange(g, offset, length);
    WidenedAccepted(g, offset, length);
    ChunksCorrect(g, offset, length);
    RangeCallsAcceptable(g, offset, length);
    var chunks := Chunks(g, offset, length);
    ClearCallsEffect(calls, chunks, offset, length, st);
    n := TilesPrefix(chunks, offset, length, k);
    assert ZeroCalls(chunks)[..k] == ZeroCalls(chunks[..k]);
    assert DiscardCalls(chunks)[..k] == DiscardCalls(chunks[..k]);
    ClearCallsEffect(calls[..k], chunks[..k], offset, n, st);
  }

  // ------------------------------------------------------- UNMAP

  /** UNMAP splits its range into edges cleared by write and a middle that is discarded. */
  datatype Part = Edge(offset: nat, length: nat) | Middle(offset: nat, length: nat)

  function UnmapParts(g: Geometry, offset: U64, length: U64): seq<Part> {
    if BackendAligned(g, offset, length) then [Middle(offset, length)]
    else
      var b := BackendBlock(g);
      var end := Wrap(offset + length);
      var middleStart, middleEnd := HeadEnd(offset, length, b), DownTo(end, b);
      HeadPart(offset, middleStart) + MiddlePart(middleStart, middleEnd) + TailPart(middleStart, middleEnd, end)
  }

  /** Where the head written by zeros ends: at the next block boundary, or at the end of the range. */
  function HeadEnd(offset: nat, length: nat, b: nat): nat
    requires b > 0
  {
    if offset % b != 0 then offset + Min(b - offset % b, length) else offset
  }

  function HeadPart(offset: nat, middleStart: nat): seq<Part> {
    if middleStart > offset then [Edge(offset, middleStart - offset)] else []
  }

  function MiddlePart(middleStart: nat, middleEnd: nat): seq<Part> {
    if middleEnd > middleStart then [Middle(middleStart, middleEnd - middleStart)] else []
  }

  function TailPart(middleStart: nat, middleEnd: nat, end: nat): seq<Part> {
    if end > middleEnd && middleEnd >= middleStart then [Edge(middleEnd, end - middleEnd)] else []
  }

  /** The three parts tile the range when the head ends at or before the middle, or swallows everything. */
  lemma PartsTile(offset: nat, ms: nat, me: nat, end: nat)
    requires offset <= ms <= end && me <= end && (ms <= me || ms == end)
    ensures Tiles(PartChunks(HeadPart(offset, ms) + MiddlePart(ms, me) + TailPart(ms, me, end)), offset, end - offset)
  {
    hide Tiles, PartChunks;
    var head, middle, tail := HeadPart(offset, ms), MiddlePart(ms, me), TailPart(ms, me, end);
    var from := if ms <= me then me else end;
    NoParts(from);
    if tail != [] {
      NoParts(end);
      PrependPart(tail[0], [], end - from);
      assert tail == [tail[0]] + [];
    }
    if middle != [] {
      PrependPart(middle[0], tail, end - ms);
    }
    assert middle == [] ==> middle + tail == tail;
    if head != [] {
      PrependPart(head[0], middle + tail, end - offset);
    }
    assert head + middle + tail == if head == [] then middle + tail else [head[0]] + (middle + tail);
  }

  lemma NoParts(offset: nat)
    ensures Tiles(PartChunks([]), offset, 0)
  {
  }

  lemma PrependPart(p: Part, rest: seq<Part>, length: nat)
    requires 0 < p.length <= length && Tiles(PartChunks(rest), p.offset + p.length, length - p.length)
    ensures Tiles(PartChunks([p] + rest), p.offset, length)
  {
    assert PartChunks([p] + rest)[1..] == PartChunks(rest);
  }

  function PartChunks(parts: seq<Part>): (r: seq<Chunk>)
    ensures |r| == |parts|
  {
    seq(|parts|, i requires 0 <= i < |parts| => Chunk(parts[i].offset, parts[i].length))
  }

  /** A whole backend block inside the range. */
  predicate WholeBlock(g: Geometry, x: int, offset: int, length: int) {
    x % BackendBlock(g) == 0 && offset <= x && x + BackendBlock(g) <= offset + length
  }

  /**
   The parts cover the requested range exactly once, whatever its alignment; the
   discarded part consists of whole backend blocks, and contains every whole
   backend block of the range, so what is cleared by write is less than a block
   at either end.
   */
  lemma UnmapPartsCorrect(g: Geometry, offset: U64, length: U64)
    requires Sound(g) && Within(g, offset, length)
    ensures Tiles(PartChunks(UnmapParts(g, offset, length)), offset, length)
    ensures forall p :: p in UnmapParts(g, offset, length) && p.Middle? ==> BackendAligned(g, p.offset, p.length)
    ensures forall p :: p in UnmapParts(g, offset, length) && p.Edge? ==> p.length < BackendBlock(g)
    ensures forall x: int :: WholeBlock(g, x, offset, length) ==>
      exists p :: p in UnmapParts(g, offset, length) && p.Middle?
        && p.offset <= x && x + BackendBlock(g) <= p.offset + p.length
  {
    var parts := UnmapParts(g, offset, length);
    if BackendAligned(g, offset, length) {
      assert PartChunks(parts) == [Chunk(offset, length)];
      forall x: int | WholeBlock(g, x, offset, length)
        ensures exists p :: p in parts && p.Middle? && p.offset <= x && x + BackendBlock(g) <= p.offset + p.length
      {
        assert parts[0] in parts;
      }
    } else {
      UnalignedParts(g, offset, length);
    }
  }

  lemma UnalignedParts(g: Geometry, offset: U64, length: U64)
    requires Sound(g) && Within(g, offset, length) && !BackendAligned(g, offset, length)
    ensures Tiles(PartChunks(UnmapParts(g, offset, length)), offset, length)
    ensures forall p :: p in UnmapParts(g, offset, length) && p.Middle? ==> BackendAligned(g, p.offset, p.length)
    ensures forall p :: p in UnmapParts(g, offset, length) && p.Edge? ==> p.length < BackendBlock(g)
    ensures forall x: int :: WholeBlock(g, x, offset, length) ==>
      exists p :: p in UnmapParts(g, offset, length) && p.Middle?
        && p.offset <= x && x + BackendBlock(g) <= p.offset + p.length
  {
    var b, end := BackendBlock(g), offset + length;
    var parts := UnmapParts(g, offset, length);
    var ms, me := HeadEnd(offset, length, b), DownTo(end, b);
    assert Wrap(end) == end;
    hide Sound, Advertised, Tiles, DownTo, HeadEnd;
    assert parts == HeadPart(offset, ms) + MiddlePart(ms, me) + TailPart(ms, me, end);
    hide HeadPart, MiddlePart, TailPart, UnmapParts, PartChunks;
    CutsCorrect(offset, length, b);
    PartsTile(offset, ms, me, end);
    PartsShape(offset, ms, me, end, b);
    forall x: int | WholeBlock(g, x, offset, length)
      ensures exists p :: p in parts && p.Middle? && p.offset <= x && x + b <= p.offset + p.length
    {
      CutsHoldBlock(x, offset, length, b);
    }
  }

  /** Edges are shorter than a block; there is one middle, from cut to cut, when the cuts are apart. */
  lemma PartsShape(offset: nat, ms: nat, me: nat, end: nat, b: nat)
    requires ms - offset < b && end - me < b
    ensures
      var parts := HeadPart(offset, ms) + MiddlePart(ms, me) + TailPart(ms, me, end);
      && (forall p :: p in parts ==> if p.Edge? then p.length < b else ms < me && p == Middle(ms, me - ms))
      && (ms < me ==> Middle(ms, me - ms) in parts)
  {
  }

  /** The two cut points of an unaligned range. */
  lemma CutsCorrect(offset: nat, length: nat, b: nat)
    requires b > 0
    ensures
      var end := offset + length;
      var ms, me := HeadEnd(offset, length, b), DownTo(end, b);
      && offset <= ms <= end && me <= end && ms - offset < b && end - me < b
      && (ms <= me || ms == end)
      && (ms < me ==> ms % b == 0 && (me - ms) % b == 0)
  {
    var end := offset + length;
    var ms, me := HeadEnd(offset, length, b), DownTo(end, b);
    var up := if offset % b != 0 then DownTo(offset, b) + b else offset;
    assert up % b == 0 && ms == Min(up, end) by {
      if offset % b != 0 {
        MultipleOf(1, b);
        AddMultiples(DownTo(offset, b), b, b);
      }
    }
    if me < up {
      MultipleGap(me, up, b);
    } else {
      AddMultiples(me, up, b);
    }
  }

  lemma CutsHoldBlock(x: int, offset: nat, length: nat, b: nat)
    requires b > 0 && x % b == 0 && offset <= x && x + b <= offset + length
    ensures HeadEnd(offset, length, b) <= x && x + b <= DownTo(offset + length, b)
  {
    BlockInside(x, offset, offset + length, b);
  }

  /** A whole block between two addresses lies between their roundings. */
  lemma BlockInside(x: int, lo: nat, hi: nat, b: nat)
    requires b > 0 && x % b == 0 && lo <= x && x + b <= hi
    ensures x + b <= DownTo(hi, b)
    ensures lo % b != 0 ==> DownTo(lo, b) + b <= x
  {
    MultipleOf(1, b);
    AddMultiples(x, b, b);
    if DownTo(hi, b) < x + b {
      MultipleGap(DownTo(hi, b), x + b, b);
    }
    if lo % b != 0 {
      MultipleGap(DownTo(lo, b), x, b);
    }
  }

  function PartCalls(g: Geometry, p: Part): seq<Call> {
    if p.offset >= TWO64 || p.length >= TWO64 then []
    else if p.Edge? then WritePlan(g, p.offset, Zeros(p.length))
    else DiscardCalls(Chunks(g, p.offset, p.length))
  }

  function PartsPlan(g: Geometry, parts: seq<Part>): seq<Call> {
    if parts == [] then [] else PartCalls(g, parts[0]) + PartsPlan(g, parts[1..])
  }

  function UnmapPlan(g: Geometry, offset: U64, length: U64): seq<Call> {
    PartsPlan(g, UnmapParts(g, offset, length))
  }

  /** Wherever an UNMAP stops, a prefix of the range is zero and nothing else has changed. */
  lemma UnmapSplit(g: Geometry, offset: U64, length: U64, k: nat, st: OpState) returns (n: nat)
    requires Sound(g) && Mounted(g, st) && Within(g, offset, length)
    requires k <= |UnmapPlan(g, offset, length)|
    ensures n <= length && (k == |UnmapPlan(g, offset, length)| ==> n == length)
    ensures Exec(UnmapPlan(g, offset, length)[..k], st).volume == Splice(st.volume, offset, Zeros(n))
    ensures AllFit(UnmapPlan(g, offset, length), st)
    ensures AllAcceptable(g, UnmapPlan(g, offset, length))
  {
    UnmapPartsCorrect(g, offset, length);
    n := PartsSplit(g, UnmapParts(g, offset, length), offset, length, k, st);
  }

  lemma {:induction false} PartsSplit(g: Geometry, parts: seq<Part>, offset: nat, length: nat, k: nat, st: OpState)
    returns (n: nat)
    requires Sound(g) && Mounted(g, st) && offset + length <= Advertised(g)
    requires Tiles(PartChunks(parts), offset, length)
    requires forall p :: p in parts && p.Middle? ==> BackendAligned(g, p.offset, p.length)
    requires k <= |PartsPlan(g, parts)|
    ensures n <= length && (k == |PartsPlan(g, parts)| ==> n == length)
    ensures Exec(PartsPlan(g, parts)[..k], st).volume == Splice(st.volume, offset, Zeros(n))
    ensures AllFit(PartsPlan(g, parts), st) && AllAcceptable(g, PartsPlan(g, parts))
    decreases |parts|
  {
    hide Sound, Advertised, BackendAligned, Acceptable, PartCalls, Tiles, PartChunks;
    if parts == [] {
      n := 0;
      AdvertisedBound(g);
      FirstPart(parts, offset, length);
      SpliceNothing(st.volume, offset);
      assert Zeros(0) == [];
    } else {
      var p, rest := parts[0], parts[1..];
      AdvertisedBound(g);
      FirstPart(parts, offset, length);
      assert p in parts && forall q :: q in rest ==> q in parts;
      var head, tail := PartCalls(g, p), PartsPlan(g, rest);
      var st1 := Exec(head, st);
      var n' := PartsSplit(g, rest, offset + p.length, length - p.length, if k < |head| then 0 else k - |head|, st1);
      n := JoinSplit(g, p, tail, k, n', st);
    }
  }

  /** A part followed by calls that clear what comes right after it. */
  lemma JoinSplit(g: Geometry, p: Part, tail: seq<Call>, k: nat, n': nat, st: OpState) returns (n: nat)
    requires Sound(g) && Mounted(g, st) && Within(g, p.offset, p.length)
    requires p.Middle? ==> BackendAligned(g, p.offset, p.length)
    requires k <= |PartCalls(g, p)| + |tail| && p.offset + p.length + n' <= |st.volume|
    requires AllFit(tail, Exec(PartCalls(g, p), st)) && AllAcceptable(g, tail)
    requires k >= |PartCalls(g, p)| ==>
      var st1 := Exec(PartCalls(g, p), st);
      Exec(tail[..k - |PartCalls(g, p)|], st1).volume == Splice(st1.volume, p.offset + p.length, Zeros(n'))
    ensures n == n' + p.length || (n <= p.length && k < |PartCalls(g, p)|)
    ensures Exec((PartCalls(g, p) + tail)[..k], st).volume == Splice(st.volume, p.offset, Zeros(n))
    ensures AllFit(PartCalls(g, p) + tail, st) && AllAcceptable(g, PartCalls(g, p) + tail)
  {
    hide Sound, Advertised, BackendAligned, Acceptable, PartCalls, Splice, Exec, AllFit, Zeros;
    var head := PartCalls(g, p);
    var whole := PartSplit(g, p, |head|, st);
    assert head[..|head|] == head;
    ExecConcat(head, tail, st);
    if k < |head| {
      n := PartSplit(g, p, k, st);
      assert (head + tail)[..k] == head[..k];
    } else {
      n := p.length + n';
      assert (head + tail)[..k] == head + tail[..k - |head|];
      ExecConcat(head, tail[..k - |head|], st);
      ClearMore(st.volume, p.offset, p.length, n');
    }
  }

  lemma FirstPart(parts: seq<Part>, offset: nat, length: nat)
    requires Tiles(PartChunks(parts), offset, length)
    ensures parts == [] ==> length == 0
    ensures parts != [] ==>
      && parts[0].offset == offset && 0 < parts[0].length <= length
      && Tiles(PartChunks(parts[1..]), offset + parts[0].length, length - parts[0].length)
  {
    if parts != [] {
      assert PartChunks(parts)[1..] == PartChunks(parts[1..]);
    }
  }

  lemma PartSplit(g: Geometry, p: Part, k: nat, st: OpState) returns (n: nat)
    requires Sound(g) && Mounted(g, st) && Within(g, p.offset, p.length)
    requires p.Middle? ==> BackendAligned(g, p.offset, p.length)
    requires k <= |PartCalls(g, p)|
    ensures n <= p.length && (k == |PartCalls(g, p)| ==> n == p.length)
    ensures Exec(PartCalls(g, p)[..k], st).volume == Splice(st.volume, p.offset, Zeros(n))
    ensures AllFit(PartCalls(g, p), st) && AllAcceptable(g, PartCalls(g, p))
  {
    if p.Edge? {
      n := WriteSplit(g, p.offset, Zeros(p.length), k, st);
      assert Zeros(p.length)[..n] == Zeros(n);
      WritePlanAcceptable(g, p.offset, Zeros(p.length));
    } else {
      n := ClearSplit(g, p.offset, p.length, DiscardCalls(Chunks(g, p.offset, p.length)), k, st);
    }
  }

  // ------------------------------------------------------- all mutations

  datatype Mutation =
    | WriteOp(offset: U64, data: Bytes)
    | ZeroOp(offset: U64, length: U64)
    | UnmapOp(offset: U64, length: U64)
  {
    function Length(): nat {
      if WriteOp? then |data| else length
    }

    /** The bytes a completed mutation leaves in its range. */
    function Payload(): Bytes {
      if WriteOp? then data else Zeros(length)
    }
  }

  /** A mutation the adapter lets through to the backend lies inside the advertised capacity. */
  predicate Admissible(g: Geometry, m: Mutation) {
    m.Length() < TWO64 && Within(g, m.offset, m.Length())
  }

  function Plan(g: Geometry, m: Mutation): seq<Call>
    requires m.Length() < TWO64
  {
    match m
    case WriteOp(o, d) => WritePlan(g, o, d)
    case ZeroOp(o, n) => ZeroPlan(g, o, n)
    case UnmapOp(o, n) => UnmapPlan(g, o, n)
  }

  /** The split-point property for every mutation, with every call one a healthy backend takes. */
  lemma MutationSplit(g: Geometry, m: Mutation, k: nat, st: OpState) returns (n: nat)
    requires Sound(g) && Mounted(g, st) && Admissible(g, m) && k <= |Plan(g, m)|
    ensures n <= m.Length() && (k == |Plan(g, m)| ==> n == m.Length())
    ensures Exec(Plan(g, m)[..k], st).volume == Splice(st.volume, m.offset, m.Payload()[..n])
    ensures AllFit(Plan(g, m), st) && AllAcceptable(g, Plan(g, m))
  {
    match m
    case WriteOp(o, d) =>
      n := WriteSplit(g, o, d, k, st);
      WritePlanAcceptable(g, o, d);
    case ZeroOp(o, len) =>
      n := ZeroSplit(g, o, len, k, st);
      assert Zeros(len)[..n] == Zeros(n);
    case UnmapOp(o, len) =>
      n := UnmapSplit(g, o, len, k, st);
      assert Zeros(len)[..n] == Zeros(n);
  }

  /** A completed mutation lays its payload over its range and nothing else, on either path. */
  lemma MutationEffect(g: Geometry, m: Mutation, st: OpState)
    requires Sound(g) && Mounted(g, st) && Admissible(g, m)
    ensures Exec(Plan(g, m), st).volume == Splice(st.volume, m.offset, m.Payload())
  {
    var n := MutationSplit(g, m, |Plan(g, m)|, st);
    assert Plan(g, m)[..|Plan(g, m)|] == Plan(g, m);
    assert m.Payload()[..n] == m.Payload();
  }
}
