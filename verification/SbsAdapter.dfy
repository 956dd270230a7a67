/**
 The adapter object of iscsi/sbs_adapter.go.  Its methods loop over transfer
 chunks against a backend that may fail any call; each is proved to leave the
 volume exactly where some prefix of the operation's plan leaves it.
 */
module SbsAdapter {
  import opened Words
  import opened Geometry
  import opened Calls
  import opened Plans
  import opened Text
  import A = Adapter
  import F = FlatLun

  /** The volume behind the SBS client.  Call number `k` succeeds only if `up(k)`; a failed call has no effect. */
  class Backend {
    const geometry: Geometry
    const up: nat -> bool
    var volume: Bytes
    var served: nat
    var discarded: seq<Chunk>

    ghost predicate Valid()
      reads this
    {
      |volume| == geometry.profile.sizeBytes
    }

    ghost predicate Healthy() {
      forall k: nat :: up(k)
    }

    constructor (geometry: Geometry, up: nat -> bool)
      ensures this.geometry == geometry && this.up == up && served == 0 && discarded == []
      ensures Valid() && volume == Zeros(geometry.profile.sizeBytes)
    {
      this.geometry, this.up, this.served := geometry, up, 0;
      this.volume, this.discarded := Zeros(geometry.profile.sizeBytes), [];
    }

    method ReadRange(offset: nat, length: nat) returns (ok: bool, data: Bytes)
      requires Valid()
      modifies this`served
      ensures ok ==> offset + length <= |volume| && data == volume[offset..offset + length]
      ensures Healthy() && Acceptable(geometry, Read(offset, length)) ==> ok
    {
      ok, data := up(served) && Acceptable(geometry, Read(offset, length)), [];
      served := served + 1;
      if ok {
        data := volume[offset..offset + length];
      }
    }

    method WriteRange(offset: nat, data: Bytes) returns (ok: bool)
      requires Valid()
      modifies this`volume, this`served
      ensures Valid()
      ensures ok ==> offset + |data| <= |old(volume)| && volume == Splice(old(volume), offset, data)
      ensures !ok ==> volume == old(volume)
      ensures Healthy() && Acceptable(geometry, Write(offset, 0, |data|)) ==> ok
    {
      ok := up(served) && Acceptable(geometry, Write(offset, 0, |data|));
      served := served + 1;
      if ok {
        volume := Splice(volume, offset, data);
      }
    }

    /** Zero and Discard both leave zeros behind; a discard also deallocates. */
    method ClearRange(offset: nat, length: nat, discard: bool) returns (ok: bool)
      requires Valid()
      modifies this
      ensures Valid()
      ensures discarded == if ok && discard then old(discarded) + [Chunk(offset, length)] else old(discarded)
      ensures ok ==> offset + length <= |old(volume)| && volume == Splice(old(volume), offset, Zeros(length))
      ensures !ok ==> volume == old(volume)
      ensures Healthy() && Acceptable(geometry, Zero(offset, length)) ==> ok
    {
      ok := up(served) && Acceptable(geometry, Zero(offset, length));
      served := served + 1;
      if ok {
        volume := Splice(volume, offset, Zeros(length));
        if discard {
          discarded := discarded + [Chunk(offset, length)];
        }
      }
    }
  }

  /** Executing one more call of a plan. */
  lemma ExecNext(calls: seq<Call>, i: nat, st: OpState)
    requires i < |calls|
    ensures Exec(calls[..i + 1], st) == Step(calls[i], Exec(calls[..i], st))
    ensures AllFit(calls, st) ==> Fits(calls[i], Exec(calls[..i], st))
  {
    assert calls[..i + 1] == calls[..i] + [calls[i]];
    ExecConcat(calls[..i], [calls[i]], st);
    assert calls == calls[..i + 1] + calls[i + 1..];
    ExecConcat(calls[..i + 1], calls[i + 1..], st);
  }

  /** The `i`-th chunk of a tiling is written from the matching place of the buffer. */
  lemma {:induction false} WriteCallAt(chunks: seq<Chunk>, offset: nat, length: nat, from: nat, i: nat)
    requires Tiles(chunks, offset, length) && i < |chunks|
    ensures chunks[i].offset >= offset
    ensures WriteCalls(chunks, from)[i] == Write(chunks[i].offset, from + (chunks[i].offset - offset), chunks[i].length)
    decreases i
  {
    if i > 0 {
      WriteCallAt(chunks[1..], offset + chunks[0].length, length - chunks[0].length, from + chunks[0].length, i - 1);
    }
  }

  lemma ReadCallAt(chunks: seq<Chunk>, i: nat)
    requires i < |chunks|
    ensures ReadCalls(chunks)[i] == Read(chunks[i].offset, chunks[i].length)
    ensures Read(chunks[i].offset, chunks[i].length) in ReadCalls(chunks)
  {
    assert ReadCalls(chunks)[i] in ReadCalls(chunks);
  }

  /** The discards added since `before` are contiguous, in order, and cover [offset, offset+length) exactly. */
  ghost predicate DiscardsTile(before: seq<Chunk>, after: seq<Chunk>, offset: nat, length: nat) {
    before <= after && Tiles(after[|before|..], offset, length)
  }

  lemma NoneDiscarded(before: seq<Chunk>, offset: nat)
    ensures DiscardsTile(before, before, offset, 0)
  {
  }

  lemma OneMoreDiscard(before: seq<Chunk>, after: seq<Chunk>, offset: nat, length: nat, c: Chunk)
    requires DiscardsTile(before, after, offset, length) && c.offset == offset + length && c.length > 0
    ensures DiscardsTile(before, after + [c], offset, length + c.length)
  {
    assert (after + [c])[|before|..] == after[|before|..] + [c];
    TilesAppend(after[|before|..], offset, length, c);
  }

  lemma {:induction false} TilesAppend(chunks: seq<Chunk>, offset: nat, length: nat, c: Chunk)
    requires Tiles(chunks, offset, length) && c.offset == offset + length && c.length > 0
    ensures Tiles(chunks + [c], offset, length + c.length)
    decreases |chunks|
  {
    if chunks == [] {
      assert [c][1..] == [];
    } else {
      assert (chunks + [c])[1..] == chunks[1..] + [c];
      TilesAppend(chunks[1..], offset + chunks[0].length, length - chunks[0].length, c);
    }
  }

  /** How much of the whole blocks lies below the address an UNMAP has got to. */
  function Discardable(blocks: (nat, nat), reached: nat): nat {
    if Min(blocks.1, reached) <= blocks.0 then 0 else Min(blocks.1, reached) - blocks.0
  }

  /** Between the first and the last backend block boundary of the range. */
  function WholeBlocks(g: Geometry, offset: nat, length: nat): (nat, nat) {
    (HeadEnd(offset, length, BackendBlock(g)), DownTo(offset + length, BackendBlock(g)))
  }

  lemma ZeroCallAt(chunks: seq<Chunk>, i: nat)
    requires i < |chunks|
    ensures Zero(chunks[i].offset, chunks[i].length) in ZeroCalls(chunks)
  {
    assert ZeroCalls(chunks)[i] in ZeroCalls(chunks);
  }

  lemma ZerosTake(n: nat, k: nat)
    requires k <= n
    ensures Zeros(n)[..k] == Zeros(k)
  {
  }

  /** Whole backend blocks inside the capacity are a range the backend validator accepts. */
  lemma MiddleAccepted(g: Geometry, offset: U64, length: U64)
    requires Sound(g) && Within(g, offset, length) && BackendAligned(g, offset, length)
    ensures CheckBackend(g.profile, offset, length) == Accepted
  {
    WidenedRange(g, offset, length);
    WidenedAccepted(g, offset, length);
  }

  /** What UNMAP relies on: its cut points, and that the blocks between them are acceptable. */
  lemma UnmapFacts(g: Geometry, offset: U64, length: U64)
    requires Sound(g) && Within(g, offset, length)
    ensures offset + length <= Advertised(g) <= g.profile.sizeBytes < TWO64
    ensures BackendAligned(g, offset, length) ==> CheckBackend(g.profile, offset, length) == Accepted
    ensures
      var end := offset + length;
      var ms, me := HeadEnd(offset, length, BackendBlock(g)), DownTo(end, BackendBlock(g));
      && offset <= ms <= end && me <= end && (ms <= me || ms == end)
      && (ms < me ==> CheckBackend(g.profile, ms, me - ms) == Accepted)
      && (BackendAligned(g, offset, length) ==> ms == offset && me == end)
  {
    var ms, me := HeadEnd(offset, length, BackendBlock(g)), DownTo(offset + length, BackendBlock(g));
    CutsCorrect(offset, length, BackendBlock(g));
    if ms < me {
      MiddleAccepted(g, ms, me - ms);
    }
    if BackendAligned(g, offset, length) {
      MiddleAccepted(g, offset, length);
      AddMultiples(offset, length, BackendBlock(g));
    }
  }

  lemma ClearNothing(s: Bytes, at: nat)
    requires at <= |s|
    ensures Splice(s, at, Zeros(0)) == s
  {
    assert Zeros(0) == [];
    SpliceNothing(s, at);
  }

  /** Between `v0` and `v1` the adapter did what a flat array of the advertised size does, and nothing beyond it. */
  ghost predicate Agrees(g: Geometry, active: bool, v0: Bytes, v1: Bytes, req: F.Request, reply: F.Reply) {
    && |v0| == |v1| == g.profile.sizeBytes && req.Representable()
    && (v1[..Advertised(g)], reply) == F.Serve(v0[..Advertised(g)], EffectiveLogical(g.logicalBlock), active, req)
    && v1[Advertised(g)..] == v0[Advertised(g)..]
  }

  /** A backend call failed: a prefix of the payload arrived and nothing outside the requested range changed. */
  ghost predicate LeftPrefix(v0: Bytes, v1: Bytes, req: F.Request, reply: F.Reply) {
    && reply == F.Refused(F.BackendFailed)
    && 0 <= req.offset && 0 < req.Length() && req.offset + req.Length() <= |v0|
    && exists n: nat :: n <= req.Length() && v1 == Splice(v0, req.offset, PayloadOf(req)[..n])
  }

  /** An UNMAP stopped after `n` bytes: these are zero, nothing else changed, and the discards are the whole blocks among them. */
  ghost predicate UnmapStopped(g: Geometry, v0: Bytes, v1: Bytes, d0: seq<Chunk>, d1: seq<Chunk>, offset: int, length: int) {
    && 0 <= offset && 0 < length && offset + length <= |v0|
    && exists n: nat :: n <= length && ClearedAndDiscarded(g, v0, v1, d0, d1, offset, length, n)
  }

  ghost predicate ClearedAndDiscarded(g: Geometry, v0: Bytes, v1: Bytes, d0: seq<Chunk>, d1: seq<Chunk>, offset: nat, length: nat, n: nat)
    requires n <= length && offset + length <= |v0|
  {
    var blocks := WholeBlocks(g, offset, length);
    v1 == Splice(v0, offset, Zeros(n)) && DiscardsTile(d0, d1, blocks.0, Discardable(blocks, offset + n))
  }

  function PayloadOf(req: F.Request): (d: Bytes)
    requires 0 <= req.Length()
    ensures |d| == req.Length()
  {
    if req.WriteAt? then req.data else Zeros(req.Length())
  }

  /** A request that reaches the backend. */
  predicate Admitted(g: Geometry, req: F.Request) {
    && req.Representable() && !req.Negative() && req.Length() > 0
    && CheckLogical(g, req.offset, req.Length()) == Accepted && Within(g, req.offset, req.Length())
  }

  lemma ServedMutation(g: Geometry, active: bool, v: Bytes, req: F.Request)
    requires |v| == g.profile.sizeBytes && Admitted(g, req) && !req.ReadAt? && active
    ensures req.offset + req.Length() <= |v|
    ensures Agrees(g, active, v, Splice(v, req.offset, PayloadOf(req)), req, F.Count(if req.WriteAt? then |req.data| else 0))
  {
    A.SpliceInside(v, Advertised(g), req.offset, PayloadOf(req));
  }

  lemma ReadRangeFacts(g: Geometry, off: U64, n: U64)
    requires Sound(g) && Within(g, off, n)
    ensures
      var (start, size) := BackendRangeFor(g, off, n);
      && start <= off && off + n <= start + size <= g.profile.sizeBytes
      && CheckBackend(g.profile, start, size) == Accepted
  {
    WidenedRange(g, off, n);
    WidenedAccepted(g, off, n);
  }

  lemma ServedRead(g: Geometry, active: bool, v: Bytes, off: U64, n: U64)
    requires Sound(g) && |v| == g.profile.sizeBytes && Admitted(g, F.ReadAt(n, off)) && active
    ensures
      var (start, size) := BackendRangeFor(g, off, n);
      && start <= off && off + n <= start + size <= |v|
      && Agrees(g, active, v, v, F.ReadAt(n, off), F.Data(v[start..start + size][off - start..off - start + n]))
  {
    WidenedRange(g, off, n);
    var (start, size) := BackendRangeFor(g, off, n);
    SliceOfSlice(v, Advertised(g), start, size, off, n);
  }

  lemma SliceOfSlice(v: Bytes, cap: nat, start: nat, size: nat, off: nat, n: nat)
    requires start <= off && off + n <= start + size <= cap <= |v|
    ensures v[start..start + size][off - start..off - start + n] == v[..cap][off..off + n]
  {
    var a, b := v[start..start + size][off - start..off - start + n], v[..cap][off..off + n];
    assert forall i :: 0 <= i < n ==> a[i] == v[off + i] == b[i];
  }

  lemma SliceJoin(v: Bytes, a: nat, b: nat, c: nat)
    requires a <= b <= c <= |v|
    ensures v[a..b] + v[b..c] == v[a..c]
  {
  }

  class SBSBackendAdapter {
    const g: Geometry
    const gatewayID: string
    const activeGatewayID: string
    const backend: Backend
    var bytesRead: U64
    var bytesWritten: U64
    var zeroBytes: U64
    var unmapBytes: U64

    ghost predicate Valid()
      reads this, backend
    {
      Sound(g) && backend.geometry == g && backend.Valid()
    }

    predicate Active() {
      Trim(gatewayID) != "" && Trim(activeGatewayID) != "" && Trim(gatewayID) == Trim(activeGatewayID)
    }

    constructor (backend: Backend, gatewayID: string, activeGatewayID: string)
      requires Sound(backend.geometry) && backend.Valid()
      ensures Valid() && this.backend == backend
      ensures this.gatewayID == gatewayID && this.activeGatewayID == activeGatewayID
      ensures bytesRead == bytesWritten == zeroBytes == unmapBytes == 0
    {
      this.g, this.backend := backend.geometry, backend;
      this.gatewayID, this.activeGatewayID := gatewayID, activeGatewayID;
      bytesRead, bytesWritten, zeroBytes, unmapBytes := 0, 0, 0, 0;
    }

    /** The chunk loop of a read. */
    method ReadChunks(chunks: seq<Chunk>, ghost offset: nat, ghost length: nat) returns (ok: bool, data: Bytes)
      requires backend.Valid() && Tiles(chunks, offset, length) && offset + length <= |backend.volume|
      modifies backend`served
      ensures ok ==> data == backend.volume[offset..offset + length]
      ensures backend.Healthy() && AllAcceptable(backend.geometry, ReadCalls(chunks)) ==> ok
    {
      hide Acceptable;
      hide ReadCalls;
      data := [];
      ghost var at := offset;
      for i := 0 to |chunks|
        invariant offset <= at <= offset + length && data == backend.volume[offset..at]
        invariant Tiles(chunks[i..], at, offset + length - at)
      {
        ReadCallAt(chunks, i);
        assert chunks[i..][1..] == chunks[i + 1..];
        var good, piece := backend.ReadRange(chunks[i].offset, chunks[i].length);
        if !good {
          return false, [];
        }
        SliceJoin(backend.volume, offset, at, at + chunks[i].length);
        data := data + piece;
        at := at + chunks[i].length;
      }
      ok := true;
    }

    method ReadBackendRange(offset: U64, length: U64) returns (ok: bool, data: Bytes)
      requires Valid() && CheckBackend(g.profile, offset, length) == Accepted
      modifies backend`served
      ensures ok ==> data == backend.volume[offset..offset + length]
      ensures backend.Healthy() ==> ok
    {
      var check, chunks := TransferChunks(g, offset, length);
      hide Sound, Acceptable, EffectiveMaxIO, Tiles, Chunks;
      ChunksCorrect(g, offset, length);
      RangeCallsAcceptable(g, offset, length);
      ok, data := ReadChunks(chunks, offset, length);
    }

    /** The chunk loop of a write; `k` chunks were written. */
    method WriteChunks(chunks: seq<Chunk>, ghost offset: nat, p: Bytes) returns (ok: bool, k: nat)
      requires backend.Valid() && Tiles(chunks, offset, |p|) && offset + |p| <= |backend.volume|
      modifies backend`volume, backend`served
      ensures backend.Valid()
      ensures k <= |chunks| && (ok ==> k == |chunks|)
      ensures backend.volume == Exec(WriteCalls(chunks, 0)[..k], OpState(old(backend.volume), p)).volume
      ensures backend.Healthy() && AllAcceptable(backend.geometry, WriteCalls(chunks, 0)) ==> ok
    {
      hide Acceptable, Splice;
      ghost var calls, st := WriteCalls(chunks, 0), OpState(backend.volume, p);
      var written: nat := 0;
      k := 0;
      while k < |chunks|
        invariant k <= |chunks| && backend.Valid() && |backend.volume| == |st.volume|
        invariant written <= |p| && Tiles(chunks[k..], offset + written, |p| - written)
        invariant Exec(calls[..k], st) == OpState(backend.volume, p)
      {
        var chunk := chunks[k];
        WriteCallAt(chunks, offset, |p|, 0, k);
        ExecNext(calls, k, st);
        AcceptableWrite(backend.geometry, calls[k], Write(chunk.offset, 0, chunk.length));
        assert chunks[k..][1..] == chunks[k + 1..];
        var good := backend.WriteRange(chunk.offset, p[written..written + chunk.length]);
        if !good {
          return false, k;
        }
        written := written + chunk.length;
        k := k + 1;
      }
      ok := true;
    }

    method WriteBackendRange(offset: U64, p: Bytes) returns (ok: bool, k: nat)
      requires Valid() && |p| < TWO64 && CheckBackend(g.profile, offset, |p|) == Accepted
      modifies backend`volume, backend`served
      ensures Valid()
      ensures
        var calls := WriteCalls(Chunks(g, offset, |p|), 0);
        && k <= |calls| && (ok ==> k == |calls|)
        && backend.volume == Exec(calls[..k], OpState(old(backend.volume), p)).volume
      ensures backend.Healthy() ==> ok
    {
      var check, chunks := TransferChunks(g, offset, |p|);
      hide Sound, Acceptable, EffectiveMaxIO, Tiles, Chunks, Exec;
      ChunksCorrect(g, offset, |p|);
      RangeCallsAcceptable(g, offset, |p|);
      ok, k := WriteChunks(chunks, offset, p);
    }

    /** `n` bytes of `p` reached the volume; a failure leaves a prefix. */
    method WriteLogicalRange(offset: U64, p: Bytes) returns (ok: bool, ghost n: nat)
      requires Valid() && |p| < TWO64 && Within(g, offset, |p|)
      modifies backend`volume, backend`served
      ensures Valid()
      ensures n <= |p| && (ok ==> n == |p|)
      ensures backend.volume == Splice(old(backend.volume), offset, p[..n])
      ensures backend.Healthy() ==> ok
    {
      ghost var st := OpState(backend.volume, []);
      WriteRangeFacts(g, offset, p, st);
      var k: nat;
      hide Sound, Advertised, BackendRangeFor, Splice, Acceptable, Tiles, WriteCalls, Exec, CheckBackend, Chunks;
      if BackendAligned(g, offset, |p|) {
        ok, k := WriteBackendRange(offset, p);
        n := PlanProgress(g, offset, p, offset, |p|, p, k, st);
      } else {
        var (start, size) := BackendRangeFor(g, offset, |p|);
        var good, block := ReadBackendRange(start, size);
        if !good {
          SpliceNothing(backend.volume, offset);
          return false, 0;
        }
        block := Splice(block, offset - start, p);
        ok, k := WriteBackendRange(start, block);
        n := PlanProgress(g, offset, p, start, size, block, k, st);
      }
    }

    method ZeroLogicalRangeWithWrite(offset: U64, length: U64) returns (ok: bool, ghost n: nat)
      requires Valid() && Within(g, offset, length)
      modifies backend`volume, backend`served
      ensures Valid()
      ensures n <= length && (ok ==> n == length)
      ensures backend.volume == Splice(old(backend.volume), offset, Zeros(n))
      ensures backend.Healthy() ==> ok
    {
      ok, n := WriteLogicalRange(offset, Zeros(length));
      ZerosTake(length, n);
    }

    /** Zero or discard whole blocks: a failure leaves a cleared prefix. */
    method ClearBackendRange(offset: U64, length: U64, discard: bool) returns (ok: bool, ghost n: nat)
      requires Valid() && CheckBackend(g.profile, offset, length) == Accepted
      modifies backend
      ensures Valid()
      ensures n <= length && (ok ==> n == length)
      ensures backend.volume == Splice(old(backend.volume), offset, Zeros(n))
      ensures if discard then DiscardsTile(old(backend.discarded), backend.discarded, offset, n)
              else backend.discarded == old(backend.discarded)
      ensures backend.Healthy() ==> ok
    {
      var check, chunks := TransferChunks(g, offset, length);
      hide Sound, Acceptable, EffectiveMaxIO, Tiles, Chunks, Splice, Zeros;
      ChunksCorrect(g, offset, length);
      RangeCallsAcceptable(g, offset, length);
      ok, n := ClearChunks(chunks, offset, length, discard);
    }

    /** The chunk loop of a zero or a discard. */
    method ClearChunks(chunks: seq<Chunk>, ghost offset: nat, ghost length: nat, discard: bool) returns (ok: bool, ghost n: nat)
      requires backend.Valid() && Tiles(chunks, offset, length) && offset + length <= |backend.volume|
      modifies backend
      ensures backend.Valid()
      ensures n <= length && (ok ==> n == length)
      ensures backend.volume == Splice(old(backend.volume), offset, Zeros(n))
      ensures if discard then DiscardsTile(old(backend.discarded), backend.discarded, offset, n)
              else backend.discarded == old(backend.discarded)
      ensures backend.Healthy() && AllAcceptable(backend.geometry, ZeroCalls(chunks)) ==> ok
    {
      hide Acceptable, Splice, Zeros, ZeroCalls;
      ClearNothing(backend.volume, offset);
      NoneDiscarded(backend.discarded, offset);
      n := 0;
      for i := 0 to |chunks|
        invariant backend.Valid() && n <= length
        invariant Tiles(chunks[i..], offset + n, length - n)
        invariant backend.volume == Splice(old(backend.volume), offset, Zeros(n))
        invariant if discard then DiscardsTile(old(backend.discarded), backend.discarded, offset, n)
                  else backend.discarded == old(backend.discarded)
      {
        ZeroCallAt(chunks, i);
        assert chunks[i..][1..] == chunks[i + 1..];
        ghost var discarded := backend.discarded;
        var good := backend.ClearRange(chunks[i].offset, chunks[i].length, discard);
        if !good {
          return false, n;
        }
        if discard {
          OneMoreDiscard(old(backend.discarded), discarded, offset, n, chunks[i]);
        }
        ClearMore(old(backend.volume), offset, n, chunks[i].length);
        n := n + chunks[i].length;
      }
      ok := true;
    }

    /** UNMAP: the edges are cleared by write, the whole blocks between them are discarded. */
    method UnmapLogicalRange(offset: U64, length: U64) returns (ok: bool, ghost n: nat)
      requires Valid() && Within(g, offset, length)
      modifies backend
      ensures Valid()
      ensures n <= length && (ok ==> n == length)
      ensures backend.volume == Splice(old(backend.volume), offset, Zeros(n))
      ensures
        var blocks := WholeBlocks(g, offset, length);
        DiscardsTile(old(backend.discarded), backend.discarded, blocks.0, Discardable(blocks, offset + n))
      ensures backend.Healthy() ==> ok
    {
      hide Sound, Advertised, DownTo, HeadEnd, Splice, Acceptable, CheckBackend, Zeros, BackendAligned, BackendBlock, DiscardsTile;
      UnmapFacts(g, offset, length);
      if BackendAligned(g, offset, length) {
        ok, n := ClearBackendRange(offset, length, true);
        return;
      }
      var end := offset + length;
      var middleStart, middleEnd := HeadEnd(offset, length, BackendBlock(g)), DownTo(end, BackendBlock(g));
      ClearNothing(backend.volume, offset);
      NoneDiscarded(backend.discarded, middleStart);
      n, ok := 0, true;
      ghost var volume0, m := backend.volume, 0;
      if middleStart > offset {
        ok, n := ZeroLogicalRangeWithWrite(offset, middleStart - offset);
        if !ok {
          return;
        }
      }
      assert n == middleStart - offset;
      if middleEnd > middleStart {
        ok, m := ClearBackendRange(middleStart, middleEnd - middleStart, true);
        ClearMore(volume0, offset, n, m);
        n := n + m;
        if !ok {
          return;
        }
      }
      if end > middleEnd && middleEnd >= middleStart {
        ok, m := ZeroLogicalRangeWithWrite(middleEnd, end - middleEnd);
        ClearMore(volume0, offset, n, m);
        n := n + m;
      }
    }

    // ------------------------------------------------------- the LUN interface

    /** The checks every operation makes before its first backend call. */
    method Admit(req: F.Request) returns (early: bool, reply: F.Reply)
      requires Valid() && req.Representable()
      ensures early ==> Agrees(g, Active(), backend.volume, backend.volume, req, reply)
      ensures early ==> reply != F.Refused(F.BackendFailed)
      ensures early ==> reply.Refused? || (req.Length() == 0 && reply == if req.ReadAt? then F.Data([]) else F.Count(0))
      ensures !early ==> Active() && Admitted(g, req)
    {
      early := true;
      if req.Negative() {
        return true, F.Refused(F.NegativeRange);
      }
      if req.Length() == 0 {
        return true, if req.ReadAt? then F.Data([]) else F.Count(0);
      }
      var check := CheckLogical(g, req.offset, req.Length());
      if check != Accepted {
        return true, F.Refused(A.FaultOf(check));
      }
      if !Active() {
        return true, F.Refused(F.StandbyPath);
      }
      early, reply := false, F.Count(0);
    }

    /** Reads take no lock and change nothing but the counters. */
    method ReadAt(p: array<Byte>, off: int) returns (reply: F.Reply)
      requires Valid() && p.Length < TWO63 && off < TWO63
      modifies p, this`bytesRead, backend`served
      ensures Valid()
      ensures Agrees(g, Active(), backend.volume, backend.volume, F.ReadAt(p.Length, off), reply)
        || (reply == F.Refused(F.BackendFailed) && !backend.Healthy())
      ensures p[..] == if reply.Data? then reply.bytes else old(p[..])
      ensures bytesRead == Wrap(old(bytesRead) + if reply.Data? then |reply.bytes| else 0)
    {
      hide Sound, Agrees, Active, CheckBackend, BackendRangeFor, Advertised, CheckLogical;
      var early: bool;
      early, reply := Admit(F.ReadAt(p.Length, off));
      if early {
        return;
      }
      var range := BackendRangeFor(g, off, p.Length);
      var start, size := range.0, range.1;
      ReadRangeFacts(g, off, p.Length);
      var ok, data := ReadBackendRange(start, size);
      if !ok {
        return F.Refused(F.BackendFailed);
      }
      ServedRead(g, Active(), backend.volume, off, p.Length);
      data := data[off - start..off - start + p.Length];
      forall i | 0 <= i < p.Length {
        p[i] := data[i];
      }
      assert p[..] == data;
      bytesRead := Wrap(bytesRead + p.Length);
      reply := F.Data(data);
    }

    method WriteAt(p: Bytes, off: int) returns (reply: F.Reply)
      requires Valid() && |p| < TWO63 && off < TWO63
      modifies this`bytesWritten, backend`volume, backend`served
      ensures Valid()
      ensures Agrees(g, Active(), old(backend.volume), backend.volume, F.WriteAt(p, off), reply)
        || (!backend.Healthy() && LeftPrefix(old(backend.volume), backend.volume, F.WriteAt(p, off), reply))
      ensures bytesWritten == Wrap(old(bytesWritten) + if reply.Count? then |p| else 0)
    {
      hide Sound, Splice, Agrees, Active, Advertised, CheckLogical;
      var early: bool;
      early, reply := Admit(F.WriteAt(p, off));
      if early {
        return;
      }
      ServedMutation(g, Active(), backend.volume, F.WriteAt(p, off));
      var ok;
      ghost var n;
      ok, n := WriteLogicalRange(off, p);
      if !ok {
        return F.Refused(F.BackendFailed);
      }
      assert p[..n] == p;
      bytesWritten := Wrap(bytesWritten + |p|);
      reply := F.Count(|p|);
    }

    method Zero(offset: int, length: int) returns (reply: F.Reply)
      requires Valid() && offset < TWO63 && length < TWO63
      modifies this`zeroBytes, backend
      ensures Valid()
      ensures backend.discarded == old(backend.discarded)
      ensures Agrees(g, Active(), old(backend.volume), backend.volume, F.ZeroAt(offset, length), reply)
        || (!backend.Healthy() && LeftPrefix(old(backend.volume), backend.volume, F.ZeroAt(offset, length), reply))
      ensures zeroBytes == Wrap(old(zeroBytes) + if reply.Count? then length else 0)
    {
      hide Sound, Splice, Zeros, Agrees, Active, Advertised, CheckBackend, BackendAligned, CheckLogical, HeadEnd, DownTo, DiscardsTile;
      var early: bool;
      early, reply := Admit(F.ZeroAt(offset, length));
      if early {
        return;
      }
      ServedMutation(g, Active(), backend.volume, F.ZeroAt(offset, length));
      UnmapFacts(g, offset, length);
      var ok;
      ghost var n;
      if BackendAligned(g, offset, length) {
        ok, n := ClearBackendRange(offset, length, false);
      } else {
        ok, n := ZeroLogicalRangeWithWrite(offset, length);
      }
      if !ok {
        ZerosTake(length, n);
        return F.Refused(F.BackendFailed);
      }
      zeroBytes := Wrap(zeroBytes + length);
      reply := F.Count(0);
    }

    method Unmap(offset: int, length: int) returns (reply: F.Reply)
      requires Valid() && offset < TWO63 && length < TWO63
      modifies this`unmapBytes, backend
      ensures Valid()
      ensures reply.Count? && length > 0 ==>
        && 0 <= offset
        && var blocks := WholeBlocks(g, offset, length);
           DiscardsTile(old(backend.discarded), backend.discarded, blocks.0, Discardable(blocks, blocks.1))
      ensures reply == F.Refused(F.BackendFailed) ==>
        UnmapStopped(g, old(backend.volume), backend.volume, old(backend.discarded), backend.discarded, offset, length)
      ensures (reply.Refused? && reply.fault != F.BackendFailed) || length == 0 ==> backend.discarded == old(backend.discarded)
      ensures Agrees(g, Active(), old(backend.volume), backend.volume, F.UnmapAt(offset, length), reply)
        || (!backend.Healthy() && LeftPrefix(old(backend.volume), backend.volume, F.UnmapAt(offset, length), reply))
      ensures unmapBytes == Wrap(old(unmapBytes) + if reply.Count? then length else 0)
    {
      hide Sound, Splice, Zeros, Agrees, Active, Advertised, CheckLogical;
      var early: bool;
      early, reply := Admit(F.UnmapAt(offset, length));
      if early {
        return;
      }
      ServedMutation(g, Active(), backend.volume, F.UnmapAt(offset, length));
      var ok;
      ghost var n;
      ok, n := UnmapLogicalRange(offset, length);
      if !ok {
        assert ClearedAndDiscarded(g, old(backend.volume), backend.volume, old(backend.discarded), backend.discarded, offset, length, n);
        ZerosTake(length, n);
        return F.Refused(F.BackendFailed);
      }
      unmapBytes := Wrap(unmapBytes + length);
      reply := F.Count(0);
    }
  }

  /** Only the addressed range matters for acceptance. */
  lemma AcceptableWrite(g: Geometry, a: Call, b: Call)
    requires !a.Load? && !a.Patch? && !b.Load? && !b.Patch? && a.offset == b.offset && a.length == b.length
    ensures Acceptable(g, a) <==> Acceptable(g, b)
  {
  }

  /** The range a write sends, whichever path it takes. */
  lemma WriteRangeFacts(g: Geometry, offset: U64, p: Bytes, st: OpState)
    requires Sound(g) && Mounted(g, st) && |p| < TWO64 && Within(g, offset, |p|)
    ensures
      var (start, size) := if BackendAligned(g, offset, |p|) then (offset, |p|) else BackendRangeFor(g, offset, |p|);
      && CheckBackend(g.profile, start, size) == Accepted
      && start <= offset && offset + |p| <= start + size <= |st.volume|
      && Tiles(Chunks(g, start, size), start, size)
      && AllAcceptable(g, WriteCalls(Chunks(g, start, size), 0))
  {
    WidenedRange(g, offset, |p|);
    WidenedAccepted(g, offset, |p|);
    var (start, size) := BackendRangeFor(g, offset, |p|);
    ChunksCorrect(g, start, size);
    RangeCallsAcceptable(g, start, size);
  }

  /** How much of `p` has reached the volume after `done` chunk writes of `block`. */
  lemma PlanProgress(g: Geometry, offset: U64, p: Bytes, start: U64, size: U64, block: Bytes, done: nat, st: OpState)
    returns (n: nat)
    requires Sound(g) && Mounted(g, st) && |p| < TWO64 && Within(g, offset, |p|)
    requires (start, size) == if BackendAligned(g, offset, |p|) then (offset, |p|) else BackendRangeFor(g, offset, |p|)
    requires start <= offset && offset + |p| <= start + size <= |st.volume| && Tiles(Chunks(g, start, size), start, size)
    requires done <= |Chunks(g, start, size)|
    requires block == if BackendAligned(g, offset, |p|) then p else Splice(st.volume[start..start + size], offset - start, p)
    ensures n <= |p| && (done == |Chunks(g, start, size)| ==> n == |p|)
    ensures Exec(WriteCalls(Chunks(g, start, size), 0)[..done], OpState(st.volume, block)).volume == Splice(st.volume, offset, p[..n])
  {
    hide Sound, Advertised, BackendRangeFor, Splice, Acceptable, Tiles, BackendAligned;
    var chunks := Chunks(g, start, size);
    var w := TilesPrefix(chunks, start, size, done);
    WriteCallsTake(chunks, 0, done);
    WriteCallsEffect(chunks[..done], start, w, 0, OpState(st.volume, block));
    if BackendAligned(g, offset, |p|) {
      n := w;
    } else {
      n := PatchedBlockPrefix(st.volume, start, size, offset - start, p, w);
    }
  }
}
