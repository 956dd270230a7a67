/**
 In-flight accounting of one export runtime (iscsi/supervisor.go): any number of
 threads run beginIO, endIO, SessionOpened and SessionClosed, interleaved at
 every atomic operation.
 */
module IoAccounting {
  import opened Words

  /** Where a thread is, between its atomic operations. */
  datatype Phase =
    | Idle
    | Entered(bytes: U64)                             // in-flight count raised
    | Charged(bytes: U64, current: U64)               // memory raised to `current`; about to load the peak
    | Loaded(bytes: U64, current: U64, seen: U64)     // saw this peak; about to compare and swap
    | Running(bytes: U64)                             // beginIO has returned
    | Discharged                                      // memory lowered again
    | Closing(count: int)                             // SessionClosed saw this many sessions
    | Retrying                                        // another thread was faster; load again

  /** The counters; `high`, `everOpened` and `everClosed` record the history they are compared with. */
  datatype World = World(inFlight: int, memory: U64, peak: U64, sessions: int, threads: seq<Phase>,
                         initial: U64, high: nat, everOpened: nat, everClosed: nat)

  datatype Step = Begin(bytes: U64) | Charge | LoadPeak | SwapPeak | Discharge | Leave | OpenSession | LoadSessions | SwapSessions

  function Held(p: Phase): nat {
    match p
    case Charged(bytes, _) => bytes
    case Loaded(bytes, _, _) => bytes
    case Running(bytes) => bytes
    case _ => 0
  }

  function Open(p: Phase): nat {
    if p.Idle? || p.Closing? || p.Retrying? then 0 else 1
  }

  /** What is added up over the threads. */
  datatype Measure = Bytes | Count

  function Weight(m: Measure, p: Phase): nat {
    if m.Bytes? then Held(p) else Open(p)
  }

  function Sum(m: Measure, threads: seq<Phase>): nat {
    if threads == [] then 0 else Weight(m, threads[0]) + Sum(m, threads[1..])
  }

  /** The memory the export accounts for, without wrap-around. */
  function Load(w: World): nat {
    w.initial + Sum(Bytes, w.threads)
  }

  function Complement(x: U64): U64 {
    TWO64 - 1 - x
  }

  function Max(a: nat, b: nat): nat {
    if a < b then b else a
  }

  /** One atomic operation of thread `t`; steps that do not fit where the thread is do nothing. */
  function Apply(w: World, t: nat, step: Step): World
    requires t < |w.threads|
  {
    match (step, w.threads[t])
    case (Begin(bytes), Idle) => w.(inFlight := w.inFlight + 1, threads := w.threads[t := Entered(bytes)])
    case (Charge, Entered(bytes)) =>
      var m := Wrap(w.memory + bytes);
      var w' := w.(memory := m, threads := w.threads[t := Charged(bytes, m)]);
      w'.(high := Max(w.high, Load(w')))
    case (LoadPeak, Charged(bytes, current)) => w.(threads := w.threads[t := Loaded(bytes, current, w.peak)])
    case (SwapPeak, Loaded(bytes, current, seen)) =>
      if current <= seen then w.(threads := w.threads[t := Running(bytes)])
      else if w.peak == seen then w.(peak := current, threads := w.threads[t := Running(bytes)])
      else w.(threads := w.threads[t := Charged(bytes, current)])
    case (Discharge, Running(bytes)) =>
      w.(memory := if bytes > 0 then Wrap(w.memory + Complement(bytes - 1)) else w.memory, threads := w.threads[t := Discharged])
    case (Leave, Discharged) => w.(inFlight := w.inFlight - 1, threads := w.threads[t := Idle])
    case (OpenSession, Idle) => w.(sessions := w.sessions + 1, everOpened := w.everOpened + 1)
    case (LoadSessions, Idle) => SawSessions(w, t)
    case (LoadSessions, Retrying) => SawSessions(w, t)
    case (SwapSessions, Closing(count)) =>
      if w.sessions == count then w.(sessions := w.sessions - 1, everClosed := w.everClosed + 1, threads := w.threads[t := Idle])
      else w.(threads := w.threads[t := Retrying])
    case _ => w
  }

  function SawSessions(w: World, t: nat): World
    requires t < |w.threads|
  {
    w.(threads := w.threads[t := if w.sessions == 0 then Idle else Closing(w.sessions)])
  }

  function Start(initial: U64, threads: nat): World {
    World(0, initial, initial, 0, seq(threads, _ => Idle), initial, initial, 0, 0)
  }

  function Run(w: World, script: seq<(nat, Step)>): World
    decreases |script|
  {
    if script == [] then w
    else
      var before := Run(w, script[..|script| - 1]);
      var (t, step) := script[|script| - 1];
      if t < |before.threads| then Apply(before, t, step) else before
  }

  // ------------------------------------------------------------- what every interleaving keeps

  predicate InLoop(p: Phase) {
    p.Charged? || p.Loaded?
  }

  /** While nothing overflowed, the true maximum is either published or in the hands of a thread about to publish it. */
  ghost predicate PeakPending(w: World) {
    && w.peak <= w.high
    && (forall t :: 0 <= t < |w.threads| && InLoop(w.threads[t]) ==> w.threads[t].current <= w.high)
    && (w.peak == w.high || exists t :: 0 <= t < |w.threads| && InLoop(w.threads[t]) && w.threads[t].current == w.high)
  }

  ghost predicate Inv(w: World) {
    && w.inFlight == Sum(Count, w.threads)
    && w.memory == Wrap(Load(w))
    && w.sessions == w.everOpened - w.everClosed && w.sessions >= 0
    && (forall t :: 0 <= t < |w.threads| && w.threads[t].Closing? ==> w.threads[t].count > 0)
    && (forall t :: 0 <= t < |w.threads| && w.threads[t].Loaded? ==> w.threads[t].seen <= w.peak)
    && Load(w) <= w.high
    && (w.high < TWO64 ==> PeakPending(w))
  }

  lemma {:induction false} SumUpdate(m: Measure, threads: seq<Phase>, t: nat, p: Phase)
    requires t < |threads|
    ensures Sum(m, threads[t := p]) == Sum(m, threads) - Weight(m, threads[t]) + Weight(m, p)
    decreases |threads|
  {
    var after := threads[t := p];
    if t == 0 {
      assert after[1..] == threads[1..];
    } else {
      assert after[1..] == threads[1..][t - 1 := p];
      SumUpdate(m, threads[1..], t - 1, p);
    }
  }

  lemma {:induction false} SumIdle(m: Measure, threads: seq<Phase>)
    requires forall t :: 0 <= t < |threads| ==> Weight(m, threads[t]) == 0
    ensures Sum(m, threads) == 0
    decreases |threads|
  {
    if threads != [] {
      SumIdle(m, threads[1..]);
    }
  }

  /** Adding and later adding the complement of one less, both modulo 2^64, is exact arithmetic modulo 2^64. */
  lemma WrapAdds(total: nat, bytes: U64)
    ensures Wrap(Wrap(total) + bytes) == Wrap(total + bytes)
    ensures 0 < bytes <= total ==> Wrap(Wrap(total) + Complement(bytes - 1)) == Wrap(total - bytes)
  {
    ModShift(total, bytes, TWO64);
    if 0 < bytes <= total {
      ModShift(total, TWO64 - bytes, TWO64);
      var rest := total - bytes;
      DivModUnique(rest + TWO64, TWO64, rest / TWO64 + 1, rest % TWO64);
    }
  }

  /** One step changes one thread, and the counters with it: a charge adds, a discharge takes away, nothing else touches memory. */
  lemma StepDeltas(w: World, t: nat, step: Step)
    requires t < |w.threads|
    ensures
      var w' := Apply(w, t, step);
      && w'.initial == w.initial && |w'.threads| == |w.threads| && w'.threads == w.threads[t := w'.threads[t]]
      && w'.inFlight - w.inFlight == Open(w'.threads[t]) - Open(w.threads[t])
      && match (step, w.threads[t])
         case (Charge, Entered(bytes)) =>
           Held(w'.threads[t]) == bytes && Held(w.threads[t]) == 0 && w'.memory == Wrap(w.memory + bytes) && w'.high == Max(w.high, Load(w'))
         case (Discharge, Running(bytes)) =>
           && Held(w'.threads[t]) == 0 && Held(w.threads[t]) == bytes && w'.high == w.high
           && w'.memory == if bytes > 0 then Wrap(w.memory + Complement(bytes - 1)) else w.memory
         case _ => Held(w'.threads[t]) == Held(w.threads[t]) && w'.memory == w.memory && w'.high == w.high
  {
    hide Sum, Wrap, Max, Complement;
  }

  lemma StepKeepsCounts(w: World, t: nat, step: Step)
    requires Inv(w) && t < |w.threads|
    ensures
      var w' := Apply(w, t, step);
      w'.inFlight == Sum(Count, w'.threads) && w'.memory == Wrap(Load(w')) && Load(w') <= w'.high
  {
    hide PeakPending, Wrap, Apply, Held, Open, Sum, Complement;
    var w' := Apply(w, t, step);
    StepDeltas(w, t, step);
    SumUpdate(Count, w.threads, t, w'.threads[t]);
    SumUpdate(Bytes, w.threads, t, w'.threads[t]);
    if w.threads[t].Entered? || w.threads[t].Running? {
      WrapAdds(Load(w), w.threads[t].bytes);
    }
  }

  lemma StepKeepsPeak(w: World, t: nat, step: Step)
    requires Inv(w) && t < |w.threads| && Apply(w, t, step).high < TWO64
    ensures PeakPending(Apply(w, t, step))
  {
    hide Sum;
    var w' := Apply(w, t, step);
    StepKeepsCounts(w, t, step);
    if w'.high > w.high {
      assert InLoop(w'.threads[t]) && w'.threads[t].current == w'.high;
    } else if w.peak != w.high {
      var s :| 0 <= s < |w.threads| && InLoop(w.threads[s]) && w.threads[s].current == w.high;
      assert s != t ==> w'.threads[s] == w.threads[s];
      assert s == t && InLoop(w'.threads[t]) ==> w'.threads[t].current == w'.high;
    }
  }

  lemma StepKeepsInv(w: World, t: nat, step: Step)
    requires Inv(w) && t < |w.threads|
    ensures Inv(Apply(w, t, step)) && w.peak <= Apply(w, t, step).peak
  {
    hide PeakPending, Load, Wrap;
    StepKeepsCounts(w, t, step);
    if Apply(w, t, step).high < TWO64 {
      StepKeepsPeak(w, t, step);
    }
  }

  lemma {:induction false} RunKeepsInv(initial: U64, threads: nat, script: seq<(nat, Step)>)
    ensures Inv(Run(Start(initial, threads), script)) && Run(Start(initial, threads), script).initial == initial
    decreases |script|
  {
    hide Inv;
    if script == [] {
      StartInv(initial, threads);
    } else {
      var before := Run(Start(initial, threads), script[..|script| - 1]);
      RunKeepsInv(initial, threads, script[..|script| - 1]);
      var (t, step) := script[|script| - 1];
      if t < |before.threads| {
        StepKeepsInv(before, t, step);
      }
    }
  }

  /** `high` is the largest load of the run: reached at some point and never exceeded. */
  lemma {:induction false} HighIsMaximum(initial: U64, threads: nat, script: seq<(nat, Step)>) returns (at: nat)
    ensures at <= |script| && Load(Run(Start(initial, threads), script[..at])) == Run(Start(initial, threads), script).high
    ensures forall i :: 0 <= i <= |script| ==> Load(Run(Start(initial, threads), script[..i])) <= Run(Start(initial, threads), script).high
    decreases |script|
  {
    hide Apply, Load;
    var start, n := Start(initial, threads), |script|;
    assert script[..n] == script;
    RunKeepsInv(initial, threads, script);
    if n == 0 {
      at := 0;
      StartLoad(initial, threads);
    } else {
      var shorter := script[..n - 1];
      assert forall i :: 0 <= i < n ==> shorter[..i] == script[..i];
      at := HighIsMaximum(initial, threads, shorter);
      var before := Run(start, shorter);
      var (t, step) := script[n - 1];
      if t < |before.threads| {
        StepHigh(before, t, step);
        if Run(start, script).high != before.high {
          at := n;
        }
      }
    }
  }

  lemma StepHigh(w: World, t: nat, step: Step)
    requires t < |w.threads|
    ensures Apply(w, t, step).high == w.high || Apply(w, t, step).high == Load(Apply(w, t, step)) > w.high
  {
    StepDeltas(w, t, step);
  }

  lemma StartLoad(initial: U64, threads: nat)
    ensures Load(Start(initial, threads)) == initial
  {
    SumIdle(Bytes, Start(initial, threads).threads);
  }

  lemma StartInv(initial: U64, threads: nat)
    ensures Inv(Start(initial, threads))
  {
    var w := Start(initial, threads);
    SumIdle(Count, w.threads);
    SumIdle(Bytes, w.threads);
  }

  /** In every reachable state the in-flight counter is the number of I/Os in progress and the session count is exact. */
  lemma CountersExact(initial: U64, threads: nat, script: seq<(nat, Step)>)
    ensures
      var w := Run(Start(initial, threads), script);
      && w.inFlight == Sum(Count, w.threads) >= 0 && w.sessions == w.everOpened - w.everClosed >= 0
      && ((forall t :: 0 <= t < |w.threads| ==> w.threads[t].Idle?) ==> w.inFlight == 0 && w.memory == initial)
  {
    RunKeepsInv(initial, threads, script);
    var w := Run(Start(initial, threads), script);
    if forall t :: 0 <= t < |w.threads| ==> w.threads[t].Idle? {
      SumIdle(Count, w.threads);
      SumIdle(Bytes, w.threads);
    }
  }

  /** The memory counter shows the true load exactly when the load fits 64 bits. */
  lemma MemoryExactIff(initial: U64, threads: nat, script: seq<(nat, Step)>)
    ensures var w := Run(Start(initial, threads), script); w.memory == Load(w) <==> Load(w) < TWO64
  {
    RunKeepsInv(initial, threads, script);
  }

  /** Once no beginIO is in its loop, the recorded peak is the true maximum load exactly when that never overflowed. */
  lemma PeakExactIff(initial: U64, threads: nat, script: seq<(nat, Step)>)
    requires
      var w := Run(Start(initial, threads), script);
      forall t :: 0 <= t < |w.threads| ==> !InLoop(w.threads[t])
    ensures var w := Run(Start(initial, threads), script); w.peak == w.high <==> w.high < TWO64
  {
    RunKeepsInv(initial, threads, script);
  }

  lemma RunStep(w: World, script: seq<(nat, Step)>, i: nat, before: World)
    requires i < |script| && Run(w, script[..i]) == before && script[i].0 < |before.threads|
    ensures Run(w, script[..i + 1]) == Apply(before, script[i].0, script[i].1)
  {
    hide Apply;
    assert script[..i + 1][..i] == script[..i];
  }

  lemma SumOfTwo(a: Phase, b: Phase)
    ensures Sum(Bytes, [a, b]) == Held(a) + Held(b)
  {
    assert [a, b][1..] == [b] && [b][1..] == [];
    assert Sum(Bytes, [b]) == Held(b);
  }

  /** The largest length an unmap can carry. */
  const LARGEST: U64 := TWO63 - 1

  /** Two large unmaps at once: the counter wraps and the peak misses the load that was accounted. */
  lemma PeakMissesOverflow(script: seq<(nat, Step)>)
    requires script == [(0, Begin(LARGEST)), (0, Charge), (0, LoadPeak), (0, SwapPeak), (1, Begin(LARGEST)), (1, Charge)]
    ensures var w := Run(Start(2, 2), script); w.memory == 0 && w.peak == TWO63 + 1 && w.high == Load(w) == TWO64
  {
    hide Sum, Run;
    var n := LARGEST;
    SumOfTwo(Charged(n, n + 2), Idle);
    SumOfTwo(Running(n), Charged(n, 0));
    var w0 := Start(2, 2);
    assert w0.threads == [Idle, Idle];
    RunNothing(w0, script);
    RunStep(w0, script, 0, w0);
    RunStep(w0, script, 1, World(1, 2, 2, 0, [Entered(n), Idle], 2, 2, 0, 0));
    assert [Entered(n), Idle][0 := Charged(n, n + 2)] == [Charged(n, n + 2), Idle];
    RunStep(w0, script, 2, World(1, n + 2, 2, 0, [Charged(n, n + 2), Idle], 2, n + 2, 0, 0));
    RunStep(w0, script, 3, World(1, n + 2, 2, 0, [Loaded(n, n + 2, 2), Idle], 2, n + 2, 0, 0));
    RunStep(w0, script, 4, World(1, n + 2, n + 2, 0, [Running(n), Idle], 2, n + 2, 0, 0));
    RunStep(w0, script, 5, World(2, n + 2, n + 2, 0, [Running(n), Entered(n)], 2, n + 2, 0, 0));
    assert [Running(n), Entered(n)][1 := Charged(n, 0)] == [Running(n), Charged(n, 0)];
    assert script[..6] == script;
  }

  lemma RunNothing(w: World, script: seq<(nat, Step)>)
    ensures Run(w, script[..0]) == w
  {
  }

  /** The loop of beginIO is lock-free: a thread goes round again only because another one raised the peak. */
  lemma RetryMeansProgress(initial: U64, threads: nat, script: seq<(nat, Step)>, t: nat)
    requires
      var w := Run(Start(initial, threads), script);
      t < |w.threads| && w.threads[t].Loaded? && Apply(w, t, SwapPeak).threads[t].Charged?
    ensures var w := Run(Start(initial, threads), script); w.threads[t].seen < w.peak
  {
    RunKeepsInv(initial, threads, script);
  }
}
