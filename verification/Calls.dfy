/**
 Backend calls of the SBS adapter and what they do to the volume's bytes.

 An adapter operation works on one private buffer (the slice that
 `readBackendRange` fills and `writeBackendRange` sends) and on the shared
 volume.  A plan is the sequence of calls one operation issues; a call that
 fails ends the plan with no effect of its own, so every state a failing
 operation can leave behind is the result of a prefix of its plan.
 */
module Calls {
  import opened Words
  import opened Geometry

  type Bytes = seq<Byte>

  datatype Call =
    | Load(data: Bytes)                          // local: start from this buffer
    | Read(offset: nat, length: nat)             // append volume bytes to the buffer
    | Patch(at: nat, data: Bytes)                // local: overwrite part of the buffer
    | Write(offset: nat, from: nat, length: nat) // send part of the buffer
    | Zero(offset: nat, length: nat)
    | Discard(offset: nat, length: nat)

  /** The volume and the buffer of the operation at work. */
  datatype OpState = OpState(volume: Bytes, buffer: Bytes)

  function Zeros(n: nat): (z: Bytes)
    ensures |z| == n && forall i :: 0 <= i < n ==> z[i] == 0
  {
    seq(n, _ => 0)
  }

  /** `s` with `d` laid over it at `at`. */
  function Splice(s: Bytes, at: nat, d: Bytes): (r: Bytes)
    requires at + |d| <= |s|
    ensures |r| == |s|
  {
    s[..at] + d + s[at + |d|..]
  }

  lemma SpliceAt(s: Bytes, at: nat, d: Bytes, i: nat)
    requires at + |d| <= |s| && i < |s|
    ensures Splice(s, at, d)[i] == if at <= i < at + |d| then d[i - at] else s[i]
  {
  }

  lemma SpliceNothing(s: Bytes, at: nat)
    requires at <= |s|
    ensures Splice(s, at, []) == s
  {
  }

  lemma SpliceTwice(s: Bytes, at: nat, a: Bytes, b: Bytes)
    requires at + |a| + |b| <= |s|
    ensures Splice(Splice(s, at, a), at + |a|, b) == Splice(s, at, a + b)
  {
  }

  lemma ZerosAppend(a: nat, b: nat)
    ensures Zeros(a) + Zeros(b) == Zeros(a + b)
  {
  }

  /** Clearing a range and then what follows it clears both. */
  lemma ClearMore(s: Bytes, at: nat, a: nat, b: nat)
    requires at + a + b <= |s|
    ensures Splice(Splice(s, at, Zeros(a)), at + a, Zeros(b)) == Splice(s, at, Zeros(a + b))
  {
    SpliceTwice(s, at, Zeros(a), Zeros(b));
    ZerosAppend(a, b);
  }

  /** Whether a call addresses only what exists. */
  predicate Fits(c: Call, st: OpState) {
    match c
    case Load(_) => true
    case Read(o, n) => o + n <= |st.volume|
    case Patch(at, d) => at + |d| <= |st.buffer|
    case Write(o, from, n) => o + n <= |st.volume| && from + n <= |st.buffer|
    case Zero(o, n) => o + n <= |st.volume|
    case Discard(o, n) => o + n <= |st.volume|
  }

  /** One call; a call that addresses nothing that exists is refused and changes nothing. */
  function Step(c: Call, st: OpState): (r: OpState)
    ensures |r.volume| == |st.volume|
  {
    if !Fits(c, st) then st
    else
      match c
      case Load(d) => st.(buffer := d)
      case Read(o, n) => st.(buffer := st.buffer + st.volume[o..o + n])
      case Patch(at, d) => st.(buffer := Splice(st.buffer, at, d))
      case Write(o, from, n) => st.(volume := Splice(st.volume, o, st.buffer[from..from + n]))
      case Zero(o, n) => st.(volume := Splice(st.volume, o, Zeros(n)))
      case Discard(o, n) => st.(volume := Splice(st.volume, o, Zeros(n)))
  }

  function Exec(calls: seq<Call>, st: OpState): (r: OpState)
    ensures |r.volume| == |st.volume|
    decreases |calls|
  {
    if calls == [] then st else Exec(calls[1..], Step(calls[0], st))
  }

  /** A plan every one of whose calls addresses what exists when its turn comes. */
  predicate AllFit(calls: seq<Call>, st: OpState)
    decreases |calls|
  {
    calls == [] || (Fits(calls[0], st) && AllFit(calls[1..], Step(calls[0], st)))
  }

  lemma {:induction false} ExecConcat(a: seq<Call>, b: seq<Call>, st: OpState)
    ensures Exec(a + b, st) == Exec(b, Exec(a, st))
    ensures AllFit(a + b, st) <==> AllFit(a, st) && AllFit(b, Exec(a, st))
    decreases |a|
  {
    if a == [] {
      assert a + b == b;
    } else {
      assert (a + b)[1..] == a[1..] + b;
      ExecConcat(a[1..], b, Step(a[0], st));
    }
  }

  // --------------------------------------------------- chunked transfers

  function ReadCalls(chunks: seq<Chunk>): (r: seq<Call>)
    ensures |r| == |chunks|
  {
    seq(|chunks|, i requires 0 <= i < |chunks| => Read(chunks[i].offset, chunks[i].length))
  }

  function WriteCalls(chunks: seq<Chunk>, from: nat): (r: seq<Call>)
    ensures |r| == |chunks|
  {
    if chunks == [] then []
    else [Write(chunks[0].offset, from, chunks[0].length)] + WriteCalls(chunks[1..], from + chunks[0].length)
  }

  function ZeroCalls(chunks: seq<Chunk>): (r: seq<Call>)
    ensures |r| == |chunks|
  {
    seq(|chunks|, i requires 0 <= i < |chunks| => Zero(chunks[i].offset, chunks[i].length))
  }

  function DiscardCalls(chunks: seq<Chunk>): (r: seq<Call>)
    ensures |r| == |chunks|
  {
    seq(|chunks|, i requires 0 <= i < |chunks| => Discard(chunks[i].offset, chunks[i].length))
  }

  /** Reading the chunks of a range one by one appends exactly that range to the buffer. */
  lemma {:induction false} ReadCallsEffect(chunks: seq<Chunk>, offset: nat, length: nat, st: OpState)
    requires Tiles(chunks, offset, length) && offset + length <= |st.volume|
    ensures AllFit(ReadCalls(chunks), st)
    ensures Exec(ReadCalls(chunks), st) == st.(buffer := st.buffer + st.volume[offset..offset + length])
    decreases |chunks|
  {
    if chunks == [] {
      assert st.buffer + st.volume[offset..offset] == st.buffer;
    } else {
      var n := chunks[0].length;
      var st' := Step(ReadCalls(chunks)[0], st);
      assert ReadCalls(chunks)[1..] == ReadCalls(chunks[1..]);
      ReadCallsEffect(chunks[1..], offset + n, length - n, st');
      assert st.buffer + st.volume[offset..offset + n] + st.volume[offset + n..offset + length]
          == st.buffer + st.volume[offset..offset + length];
    }
  }

  lemma {:induction false} ReadCallsKeepVolume(calls: seq<Call>, st: OpState)
    requires forall c :: c in calls ==> c.Read? || c.Load? || c.Patch?
    ensures Exec(calls, st).volume == st.volume
    decreases |calls|
  {
    if calls != [] {
      ReadCallsKeepVolume(calls[1..], Step(calls[0], st));
    }
  }

  /** Writing the chunks of a range one by one lays the buffer over exactly that range. */
  lemma {:induction false} WriteCallsEffect(chunks: seq<Chunk>, offset: nat, length: nat, from: nat, st: OpState)
    requires Tiles(chunks, offset, length) && offset + length <= |st.volume| && from + length <= |st.buffer|
    ensures AllFit(WriteCalls(chunks, from), st)
    ensures Exec(WriteCalls(chunks, from), st) == st.(volume := Splice(st.volume, offset, st.buffer[from..from + length]))
    decreases |chunks|
  {
    hide Splice;
    if chunks == [] {
      assert st.buffer[from..from] == [];
      SpliceNothing(st.volume, offset);
    } else {
      var n := chunks[0].length;
      var head, tail := st.buffer[from..from + n], st.buffer[from + n..from + length];
      var st' := st.(volume := Splice(st.volume, offset, head));
      assert WriteCalls(chunks, from)[1..] == WriteCalls(chunks[1..], from + n);
      WriteCallsEffect(chunks[1..], offset + n, length - n, from + n, st');
      SpliceTwice(st.volume, offset, head, tail);
      assert head + tail == st.buffer[from..from + length];
    }
  }

  lemma {:induction false} WriteCallsTake(chunks: seq<Chunk>, from: nat, k: nat)
    requires k <= |chunks|
    ensures WriteCalls(chunks, from)[..k] == WriteCalls(chunks[..k], from)
    decreases k
  {
    if k > 0 {
      WriteCallsTake(chunks[1..], from + chunks[0].length, k - 1);
      assert chunks[..k][1..] == chunks[1..][..k - 1];
    }
  }

  /** Zeroing or discarding the chunks of a range one by one clears exactly that range. */
  lemma {:induction false} ClearCallsEffect(calls: seq<Call>, chunks: seq<Chunk>, offset: nat, length: nat, st: OpState)
    requires Tiles(chunks, offset, length) && offset + length <= |st.volume|
    requires calls == ZeroCalls(chunks) || calls == DiscardCalls(chunks)
    ensures AllFit(calls, st)
    ensures Exec(calls, st) == st.(volume := Splice(st.volume, offset, Zeros(length)))
    decreases |chunks|
  {
    hide Splice, Zeros;
    if chunks == [] {
      SpliceNothing(st.volume, offset);
      assert Zeros(0) == [];
    } else {
      var n := chunks[0].length;
      var st' := st.(volume := Splice(st.volume, offset, Zeros(n)));
      assert ZeroCalls(chunks)[1..] == ZeroCalls(chunks[1..]);
      assert DiscardCalls(chunks)[1..] == DiscardCalls(chunks[1..]);
      ClearCallsEffect(calls[1..], chunks[1..], offset + n, length - n, st');
      ClearMore(st.volume, offset, n, length - n);
    }
  }
}
