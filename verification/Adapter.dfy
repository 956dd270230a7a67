/**
 The SBS backend adapter (iscsi/sbs_adapter.go) as an object over a backend that
 may fail any call, and its agreement with the flat array.
 */
module Adapter {
  import opened Words
  import opened Geometry
  import opened Calls
  import opened Plans
  import F = FlatLun

  // --------------------------------------------------- healthy-backend meaning

  function ReadPlan(g: Geometry, offset: U64, length: U64): seq<Call> {
    var (start, size) := BackendRangeFor(g, offset, length);
    [Load([])] + ReadCalls(Chunks(g, start, size))
  }

  /** A read of whole blocks around the range leaves the range itself at the expected place of the buffer. */
  lemma ReadEffect(g: Geometry, offset: U64, length: U64, st: OpState)
    requires Sound(g) && Mounted(g, st) && Within(g, offset, length)
    ensures
      var d := offset - BackendRangeFor(g, offset, length).0;
      var st' := Exec(ReadPlan(g, offset, length), st);
      && st'.volume == st.volume && 0 <= d && d + length <= |st'.buffer|
      && st'.buffer[d..d + length] == st.volume[offset..offset + length]
    ensures AllFit(ReadPlan(g, offset, length), st) && AllAcceptable(g, ReadPlan(g, offset, length))
  {
    hide UnitFits, Advertised, BackendRangeFor, Chunks, Tiles, CheckBackend, Exec, AllFit, ReadCalls, EffectiveMaxIO;
    var (start, size) := BackendRangeFor(g, offset, length);
    WidenedRange(g, offset, length);
    AdvertisedBound(g);
    WidenedAccepted(g, offset, length);
    ChunksCorrect(g, start, size);
    RangeCallsAcceptable(g, start, size);
    ReadChunks(Chunks(g, start, size), start, size, st);
    SliceAgain(st.volume, start, size, offset, length);
  }

  lemma SliceAgain(v: Bytes, start: nat, size: nat, offset: nat, length: nat)
    requires start <= offset && offset + length <= start + size <= |v|
    ensures v[start..start + size][offset - start..offset - start + length] == v[offset..offset + length]
  {
    var a, b := v[start..start + size][offset - start..offset - start + length], v[offset..offset + length];
    assert forall i :: 0 <= i < length ==> a[i] == v[offset + i] == b[i];
  }

  lemma ReadChunks(chunks: seq<Chunk>, start: nat, size: nat, st: OpState)
    requires Tiles(chunks, start, size) && start + size <= |st.volume|
    ensures Exec([Load([])] + ReadCalls(chunks), st) == OpState(st.volume, st.volume[start..start + size])
    ensures AllFit([Load([])] + ReadCalls(chunks), st)
  {
    ReadCallsEffect(chunks, start, size, st.(buffer := []));
    assert [] + st.volume[start..start + size] == st.volume[start..start + size];
    ExecConcat([Load([])], ReadCalls(chunks), st);
  }

  /** What the adapter does on a backend that takes every acceptable call. */
  function Serve(g: Geometry, active: bool, volume: Bytes, req: F.Request): (r: (Bytes, F.Reply))
    requires Sound(g) && |volume| == g.profile.sizeBytes && req.Representable()
    ensures |r.0| == |volume|
  {
    if req.Negative() then (volume, F.Refused(F.NegativeRange))
    else if req.Length() == 0 then (volume, if req.ReadAt? then F.Data([]) else F.Count(0))
    else
      var check := CheckLogical(g, req.offset, req.Length());
      if check != Accepted then (volume, F.Refused(FaultOf(check)))
      else if !active then (volume, F.Refused(F.StandbyPath))
      else
        var st := OpState(volume, []);
        match req
        case ReadAt(n, o) =>
          ReadEffect(g, o, n, st);
          var d := o - BackendRangeFor(g, o, n).0;
          (volume, F.Data(Exec(ReadPlan(g, o, n), st).buffer[d..d + n]))
        case WriteAt(d, o) => (Exec(Plan(g, WriteOp(o, d)), st).volume, F.Count(|d|))
        case ZeroAt(o, n) => (Exec(Plan(g, ZeroOp(o, n)), st).volume, F.Count(0))
        case UnmapAt(o, n) => (Exec(Plan(g, UnmapOp(o, n)), st).volume, F.Count(0))
  }

  function FaultOf(check: RangeCheck): F.Fault {
    if check == Misaligned then F.UnalignedRange else F.OutsideCapacity
  }

  function Run(g: Geometry, active: bool, volume: Bytes, reqs: seq<F.Request>): (Bytes, seq<F.Reply>)
    requires Sound(g) && |volume| == g.profile.sizeBytes && forall r :: r in reqs ==> r.Representable()
    decreases |reqs|
  {
    if reqs == [] then (volume, [])
    else
      var (volume', reply) := Serve(g, active, volume, reqs[0]);
      var (last, replies) := Run(g, active, volume', reqs[1..]);
      (last, [reply] + replies)
  }

  /** One request: the adapter answers as a flat array of the advertised size, and never touches what lies beyond it. */
  lemma ServeMatchesFlat(g: Geometry, active: bool, volume: Bytes, req: F.Request)
    requires Sound(g) && |volume| == g.profile.sizeBytes && req.Representable()
    ensures
      var cap := Advertised(g);
      var (volume', reply) := Serve(g, active, volume, req);
      && F.Serve(volume[..cap], EffectiveLogical(g.logicalBlock), active, req) == (volume'[..cap], reply)
      && volume'[cap..] == volume[cap..]
  {
    hide Sound, UnitFits, Plan, ReadPlan, Exec;
    var cap := Advertised(g);
    if !req.Negative() && req.Length() > 0 && CheckLogical(g, req.offset, req.Length()) == Accepted && active {
      var st := OpState(volume, []);
      match req
      case ReadAt(n, o) =>
        ReadEffect(g, o, n, st);
        assert volume[..cap][o..o + n] == volume[o..o + n];
      case WriteAt(d, o) =>
        MutationEffect(g, WriteOp(o, d), st);
        SpliceInside(volume, cap, o, d);
      case ZeroAt(o, n) =>
        MutationEffect(g, ZeroOp(o, n), st);
        SpliceInside(volume, cap, o, Zeros(n));
      case UnmapAt(o, n) =>
        MutationEffect(g, UnmapOp(o, n), st);
        SpliceInside(volume, cap, o, Zeros(n));
    }
  }

  lemma SpliceInside(s: Bytes, cap: nat, at: nat, d: Bytes)
    requires at + |d| <= cap <= |s|
    ensures Splice(s, at, d)[..cap] == Splice(s[..cap], at, d)
    ensures Splice(s, at, d)[cap..] == s[cap..]
  {
  }

  /**
   Over every run of requests, valid or not, the adapter's replies are those of
   a flat array of the advertised size, and so is its final content.
   */
  lemma {:induction false} RunMatchesFlat(g: Geometry, active: bool, volume: Bytes, reqs: seq<F.Request>)
    requires Sound(g) && |volume| == g.profile.sizeBytes && forall r :: r in reqs ==> r.Representable()
    ensures
      var cap := Advertised(g);
      var (volume', replies) := Run(g, active, volume, reqs);
      && |volume'| == |volume|
      && F.Run(volume[..cap], EffectiveLogical(g.logicalBlock), active, reqs) == (volume'[..cap], replies)
      && volume'[cap..] == volume[cap..]
    decreases |reqs|
  {
    if reqs != [] {
      var volume1 := Serve(g, active, volume, reqs[0]).0;
      ServeMatchesFlat(g, active, volume, reqs[0]);
      RunMatchesFlat(g, active, volume1, reqs[1..]);
    }
  }

  /** The read, write and zero part of an active adapter is indistinguishable from the memory LUN. */
  lemma ServeMatchesMemory(g: Geometry, volume: Bytes, req: F.Request)
    requires Sound(g) && |volume| == g.profile.sizeBytes && req.Representable() && !req.UnmapAt?
    requires !req.Negative() && CheckLogical(g, req.offset, req.Length()) == Accepted
    ensures
      var cap := Advertised(g);
      var (volume', reply) := Serve(g, true, volume, req);
      F.MemoryServe(volume[..cap], req) == (volume'[..cap], reply)
  {
    ServeMatchesFlat(g, true, volume, req);
    F.MemoryMatchesFlat(volume[..Advertised(g)], EffectiveLogical(g.logicalBlock), req);
  }
}
