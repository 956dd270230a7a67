/**
 The flat byte array that a LUN is meant to look like, and the memory LUN
 (iscsi/memory.go) that is one.
 */
module FlatLun {
  import opened Words
  import opened Geometry
  import opened Calls

  datatype Request =
    | ReadAt(size: nat, offset: int)
    | WriteAt(data: Bytes, offset: int)
    | ZeroAt(offset: int, length: int)
    | UnmapAt(offset: int, length: int)
  {
    function Length(): int {
      if WriteAt? then |data| else if ReadAt? then size else length
    }

    predicate Representable() {
      offset < TWO63 && Length() < TWO63
    }

    predicate Negative() {
      offset < 0 || Length() < 0
    }
  }

  datatype Fault = NegativeRange | OutsideCapacity | UnalignedRange | StandbyPath | BackendFailed | EndOfFile | Unsupported

  datatype Reply =
    | Data(bytes: Bytes)
    | Count(n: nat)
    | Refused(fault: Fault)

  /** What a request on a flat array with blocks of `block` bytes does. */
  function Serve(flat: Bytes, block: U64, active: bool, req: Request): (r: (Bytes, Reply))
    requires |flat| < TWO64 && block > 0 && req.Representable()
    ensures |r.0| == |flat|
  {
    if req.Negative() then (flat, Refused(NegativeRange))
    else if req.Length() == 0 then (flat, if req.ReadAt? then Data([]) else Count(0))
    else
      match CheckRange(|flat|, block, req.offset, req.Length())
      case Empty => (flat, Refused(OutsideCapacity))
      case OutOfRange => (flat, Refused(OutsideCapacity))
      case Misaligned => (flat, Refused(UnalignedRange))
      case Accepted =>
        if !active then (flat, Refused(StandbyPath))
        else
          match req
          case ReadAt(n, o) => (flat, Data(flat[o..o + n]))
          case WriteAt(d, o) => (Splice(flat, o, d), Count(|d|))
          case ZeroAt(o, n) => (Splice(flat, o, Zeros(n)), Count(0))
          case UnmapAt(o, n) => (Splice(flat, o, Zeros(n)), Count(0))
  }

  function Run(flat: Bytes, block: U64, active: bool, reqs: seq<Request>): (r: (Bytes, seq<Reply>))
    requires |flat| < TWO64 && block > 0 && forall r :: r in reqs ==> r.Representable()
    ensures |r.0| == |flat| && |r.1| == |reqs|
    decreases |reqs|
  {
    if reqs == [] then (flat, [])
    else
      var (flat', reply) := Serve(flat, block, active, reqs[0]);
      var (last, replies) := Run(flat', block, active, reqs[1..]);
      (last, [reply] + replies)
  }

  /** A write followed by any requests that avoid its range reads back what was written. */
  lemma {:induction false} ReadBack(flat: Bytes, block: U64, d: Bytes, o: nat, reqs: seq<Request>)
    requires |flat| < TWO64 && block > 0 && |d| < TWO63 && o < TWO63
    requires d != [] && CheckRange(|flat|, block, o, |d|) == Accepted
    requires forall r :: r in reqs ==> r.Representable() && (r.ReadAt? || r.Negative() || r.offset + r.Length() <= o || o + |d| <= r.offset)
    ensures
      var flat' := Run(Splice(flat, o, d), block, true, reqs).0;
      Serve(flat', block, true, ReadAt(|d|, o)).1 == Data(d)
  {
    assert Splice(flat, o, d)[o..o + |d|] == d;
    RangeUntouched(Splice(flat, o, d), block, o, |d|, reqs);
  }

  lemma {:induction false} RangeUntouched(flat: Bytes, block: U64, o: nat, n: nat, reqs: seq<Request>)
    requires |flat| < TWO64 && block > 0 && o + n <= |flat|
    requires forall r :: r in reqs ==> r.Representable() && (r.ReadAt? || r.Negative() || r.offset + r.Length() <= o || o + n <= r.offset)
    ensures
      var flat' := Run(flat, block, true, reqs).0;
      flat'[o..o + n] == flat[o..o + n]
    decreases |reqs|
  {
    if reqs != [] {
      assert reqs[0] in reqs;
      var flat' := Serve(flat, block, true, reqs[0]).0;
      assert flat'[o..o + n] == flat[o..o + n];
      RangeUntouched(flat', block, o, n, reqs[1..]);
    }
  }

  // ------------------------------------------------------------- MemoryLUN

  const DEFAULT_MEMORY_LUN_BYTES: nat := 512 * 1024 * 1024

  /** What the memory LUN answers; it knows no blocks and rejects UNMAP. */
  function MemoryServe(flat: Bytes, req: Request): (Bytes, Reply) {
    match req
    case UnmapAt(_, _) => (flat, Refused(Unsupported))
    case ReadAt(n, o) =>
      if o < 0 then (flat, Refused(NegativeRange))
      else if o >= |flat| then (flat, Refused(EndOfFile))
      else if o + n > |flat| then (flat, Refused(EndOfFile))
      else (flat, Data(flat[o..o + n]))
    case WriteAt(d, o) =>
      if o < 0 then (flat, Refused(NegativeRange))
      else if o > |flat| || |d| > |flat| - o then (flat, Refused(OutsideCapacity))
      else (Splice(flat, o, d), Count(|d|))
    case ZeroAt(o, n) =>
      if o < 0 || n < 0 then (flat, Refused(NegativeRange))
      else if o > |flat| || n > |flat| - o then (flat, Refused(OutsideCapacity))
      else (Splice(flat, o, Zeros(n)), Count(0))
  }

  class MemoryLUN {
    const data: array<Byte>
    var syncCount: U64

    constructor (size: nat)
      ensures data.Length == if size == 0 then DEFAULT_MEMORY_LUN_BYTES else size
      ensures data[..] == Zeros(data.Length) && syncCount == 0 && fresh(data)
    {
      data := new Byte[if size == 0 then DEFAULT_MEMORY_LUN_BYTES else size](_ => 0);
      syncCount := 0;
      new;
      assert data[..] == Zeros(data.Length);
    }

    method ReadAt(p: array<Byte>, off: int) returns (n: nat, reply: Reply)
      requires p != data && p.Length < TWO64
      modifies p
      ensures reply == MemoryServe(data[..], Request.ReadAt(p.Length, off)).1
      ensures n == if 0 <= off < data.Length then Min(p.Length, data.Length - off) else 0
      ensures n > 0 ==> p[..n] == data[off..off + n]
      ensures p[n..] == old(p[n..])
    {
      if off < 0 {
        return 0, Refused(NegativeRange);
      }
      if off >= data.Length {
        return 0, Refused(EndOfFile);
      }
      n := Min(p.Length, data.Length - off);
      forall i | 0 <= i < n {
        p[i] := data[off + i];
      }
      if n < p.Length {
        reply := Refused(EndOfFile);
      } else {
        reply := Data(data[off..off + n]);
      }
    }

    method WriteAt(p: array<Byte>, off: int) returns (reply: Reply)
      requires p != data
      modifies data
      ensures (data[..], reply) == MemoryServe(old(data[..]), Request.WriteAt(p[..], off))
    {
      if off < 0 {
        return Refused(NegativeRange);
      }
      if off > data.Length || p.Length > data.Length - off {
        return Refused(OutsideCapacity);
      }
      forall i | 0 <= i < p.Length {
        data[off + i] := p[i];
      }
      assert data[..] == Splice(old(data[..]), off, p[..]);
      reply := Count(p.Length);
    }

    method Zero(offset: int, length: int) returns (reply: Reply)
      modifies data
      ensures (data[..], reply) == MemoryServe(old(data[..]), ZeroAt(offset, length))
    {
      if offset < 0 || length < 0 {
        return Refused(NegativeRange);
      }
      if offset > data.Length || length > data.Length - offset {
        return Refused(OutsideCapacity);
      }
      forall i | offset <= i < offset + length {
        data[i] := 0;
      }
      assert data[..] == Splice(old(data[..]), offset, Zeros(length));
      reply := Count(0);
    }

    method Unmap(offset: int, length: int) returns (reply: Reply)
      ensures (data[..], reply) == MemoryServe(data[..], UnmapAt(offset, length))
    {
      reply := Refused(Unsupported);
    }

    method Sync()
      modifies this`syncCount
      ensures syncCount == Wrap(old(syncCount) + 1)
    {
      syncCount := Wrap(syncCount + 1);
    }
  }

  /** On every in-range, block-aligned read, write and zero the memory LUN and the blocked flat array agree. */
  lemma MemoryMatchesFlat(flat: Bytes, block: U64, req: Request)
    requires |flat| < TWO64 && block > 0 && req.Representable() && !req.UnmapAt?
    requires !req.Negative() && CheckRange(|flat|, block, req.offset, req.Length()) == Accepted
    ensures MemoryServe(flat, req) == Serve(flat, block, true, req)
  {
  }
}
