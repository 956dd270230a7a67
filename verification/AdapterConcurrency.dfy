/**
 Concurrent WriteAt, Zero and Unmap calls on one adapter (iscsi/sbs_adapter.go).
 Each caller takes `mutateMu`, issues the calls of its plan one at a time, and
 releases the lock when it is through or when a call has failed.  Steps of
 different callers, and of readers, which take no lock, interleave freely.
 */
module AdapterConcurrency {
  import opened Words
  import opened Geometry
  import opened Calls
  import opened Plans

  datatype Job =
    | Waiting(m: Mutation)
    | Holding(m: Mutation, done: nat, buffer: Bytes)
    | Finished(m: Mutation)

  /** A finished mutation: who ran it and how many calls of its plan took effect. */
  datatype Entry = Entry(job: nat, m: Mutation, done: nat)

  datatype Lock = Free | HeldBy(job: nat)

  datatype World = World(volume: Bytes, jobs: seq<Job>, lock: Lock, history: seq<Entry>)

  datatype Action =
    | Acquire(job: nat)
    | CallNext(job: nat)
    | Release(job: nat)
    | ReadChunk(offset: nat, length: nat)

  predicate ValidJobs(g: Geometry, jobs: seq<Job>) {
    forall t :: 0 <= t < |jobs| ==> Admissible(g, jobs[t].m)
  }

  predicate Enabled(g: Geometry, w: World, a: Action)
    requires ValidJobs(g, w.jobs)
  {
    match a
    case Acquire(t) => t < |w.jobs| && w.jobs[t].Waiting? && w.lock == Free
    case CallNext(t) => t < |w.jobs| && w.jobs[t].Holding? && w.lock == HeldBy(t) && w.jobs[t].done < |Plan(g, w.jobs[t].m)|
    case Release(t) => t < |w.jobs| && w.jobs[t].Holding? && w.lock == HeldBy(t)
    case ReadChunk(_, _) => true
  }

  function Apply(g: Geometry, w: World, a: Action): World
    requires ValidJobs(g, w.jobs)
  {
    if !Enabled(g, w, a) then w
    else
      match a
      case Acquire(t) => w.(jobs := w.jobs[t := Holding(w.jobs[t].m, 0, [])], lock := HeldBy(t))
      case CallNext(t) =>
        var Holding(m, k, buffer) := w.jobs[t];
        var st := Step(Plan(g, m)[k], OpState(w.volume, buffer));
        w.(volume := st.volume, jobs := w.jobs[t := Holding(m, k + 1, st.buffer)])
      case Release(t) =>
        var Holding(m, k, _) := w.jobs[t];
        w.(jobs := w.jobs[t := Finished(m)], lock := Free, history := w.history + [Entry(t, m, k)])
      case ReadChunk(_, _) => w
  }

  /** The world after a sequence of actions; an action that is not enabled does nothing. */
  function Run(g: Geometry, w: World, actions: seq<Action>): World
    requires ValidJobs(g, w.jobs)
    decreases |actions|
  {
    if actions == [] then w else Run(g, Apply(g, w, actions[0]), actions[1..])
  }

  function Initial(volume: Bytes, ops: seq<Mutation>): World {
    World(volume, seq(|ops|, i requires 0 <= i < |ops| => Waiting(ops[i])), Free, [])
  }

  predicate ValidHistory(g: Geometry, history: seq<Entry>) {
    forall e :: e in history ==> Admissible(g, e.m) && e.done <= |Plan(g, e.m)|
  }

  /** The recorded mutations run one after another with nothing in between. */
  function Serial(g: Geometry, volume: Bytes, history: seq<Entry>): (v: Bytes)
    requires ValidHistory(g, history)
    ensures |v| == |volume|
    decreases |history|
  {
    if history == [] then volume
    else
      var last, before := history[|history| - 1], history[..|history| - 1];
      assert last in history && Admissible(g, last.m);
      Exec(Plan(g, last.m)[..last.done], OpState(Serial(g, volume, before), [])).volume
  }

  // ------------------------------------------------------------- the invariant

  ghost predicate Recorded(w: World) {
    && (forall e :: e in w.history ==> e.job < |w.jobs| && w.jobs[e.job] == Finished(e.m))
    && (forall i, j :: 0 <= i < j < |w.history| ==> w.history[i].job != w.history[j].job)
    && (forall t :: 0 <= t < |w.jobs| && w.jobs[t].Finished? ==> exists e :: e in w.history && e.job == t)
    && (forall t :: 0 <= t < |w.jobs| && w.jobs[t].Holding? ==> w.lock == HeldBy(t))
  }

  /** With the lock free the volume is the serial one; while it is held, it is the serial one plus a prefix of the holder's plan. */
  ghost predicate Inv(g: Geometry, volume: Bytes, w: World) {
    && ValidJobs(g, w.jobs) && ValidHistory(g, w.history) && Recorded(w)
    && match w.lock
       case Free => w.volume == Serial(g, volume, w.history)
       case HeldBy(t) =>
         && t < |w.jobs| && w.jobs[t].Holding? && w.jobs[t].done <= |Plan(g, w.jobs[t].m)|
         && OpState(w.volume, w.jobs[t].buffer)
            == Exec(Plan(g, w.jobs[t].m)[..w.jobs[t].done], OpState(Serial(g, volume, w.history), []))
  }

  lemma ApplyKeepsInv(g: Geometry, volume: Bytes, w: World, a: Action)
    requires Inv(g, volume, w)
    ensures Inv(g, volume, Apply(g, w, a))
  {
    if Enabled(g, w, a) {
      match a
      case Acquire(t) => AcquireKeepsInv(g, volume, w, t);
      case CallNext(t) => CallKeepsInv(g, volume, w, t);
      case Release(t) => ReleaseKeepsInv(g, volume, w, t);
      case ReadChunk(_, _) =>
    }
  }

  lemma AcquireKeepsInv(g: Geometry, volume: Bytes, w: World, t: nat)
    requires Inv(g, volume, w) && Enabled(g, w, Acquire(t))
    ensures Inv(g, volume, Apply(g, w, Acquire(t)))
  {
    hide Plan, Within, Serial;
    var w' := Apply(g, w, Acquire(t));
    forall u | 0 <= u < |w'.jobs| && w'.jobs[u].Finished?
      ensures exists e :: e in w'.history && e.job == u
    {
      assert w.jobs[u].Finished?;
    }
    assert Plan(g, w.jobs[t].m)[..0] == [];
  }

  lemma CallKeepsInv(g: Geometry, volume: Bytes, w: World, t: nat)
    requires Inv(g, volume, w) && Enabled(g, w, CallNext(t))
    ensures Inv(g, volume, Apply(g, w, CallNext(t)))
  {
    hide Plan, Within, Serial, Step;
    var w' := Apply(g, w, CallNext(t));
    var calls, k := Plan(g, w.jobs[t].m), w.jobs[t].done;
    forall u | 0 <= u < |w'.jobs| && w'.jobs[u].Finished?
      ensures exists e :: e in w'.history && e.job == u
    {
      assert w.jobs[u].Finished?;
    }
    assert calls[..k + 1] == calls[..k] + [calls[k]];
    ExecConcat(calls[..k], [calls[k]], OpState(Serial(g, volume, w.history), []));
  }

  lemma ReleaseKeepsInv(g: Geometry, volume: Bytes, w: World, t: nat)
    requires Inv(g, volume, w) && Enabled(g, w, Release(t))
    ensures Inv(g, volume, Apply(g, w, Release(t)))
  {
    hide Plan, Admissible, Exec, Recorded;
    var w' := Apply(g, w, Release(t));
    assert w'.history[..|w.history|] == w.history;
    ReleaseKeepsRecorded(w, w', t);
  }

  lemma ReleaseKeepsRecorded(w: World, w': World, t: nat)
    requires Recorded(w) && t < |w.jobs| && w.jobs[t].Holding? && w'.lock == Free
    requires w'.jobs == w.jobs[t := Finished(w.jobs[t].m)]
    requires w'.history == w.history + [Entry(t, w.jobs[t].m, w.jobs[t].done)]
    ensures Recorded(w')
  {
    forall u | 0 <= u < |w'.jobs| && w'.jobs[u].Finished?
      ensures exists e :: e in w'.history && e.job == u
    {
      if u == t {
        assert w'.history[|w.history|] in w'.history;
      } else {
        var e :| e in w.history && e.job == u;
        assert e in w'.history;
      }
    }
    forall i | 0 <= i < |w.history|
      ensures w'.history[i].job != t
    {
      assert w.history[i] in w.history;
    }
  }

  lemma {:induction false} RunKeepsInv(g: Geometry, volume: Bytes, w: World, actions: seq<Action>)
    requires Inv(g, volume, w)
    ensures Inv(g, volume, Run(g, w, actions))
    decreases |actions|
  {
    if actions != [] {
      ApplyKeepsInv(g, volume, w, actions[0]);
      RunKeepsInv(g, volume, Apply(g, w, actions[0]), actions[1..]);
    }
  }

  /**
   Whatever the interleaving, and whichever calls failed, once nobody holds the
   lock the volume is what the recorded mutations leave when run one after
   another in lock order, and every finished caller is recorded exactly once.
   */
  lemma Serializable(g: Geometry, volume: Bytes, ops: seq<Mutation>, actions: seq<Action>)
    requires forall m :: m in ops ==> Admissible(g, m)
    ensures ValidJobs(g, Initial(volume, ops).jobs)
    ensures
      var w := Run(g, Initial(volume, ops), actions);
      && ValidHistory(g, w.history) && Recorded(w)
      && (w.lock == Free ==> w.volume == Serial(g, volume, w.history))
  {
    RunKeepsInv(g, volume, Initial(volume, ops), actions);
  }

  // ----------------------------------------------------- what the serial run means

  /** The byte at `i` when the k-th mutation got `splits[k]` bytes of its payload down: its last writer in lock order wrote it. */
  function LastWriter(volume: Bytes, history: seq<Entry>, splits: seq<nat>, i: nat): Byte
    requires i < |volume| && |splits| == |history|
    requires forall k :: 0 <= k < |history| ==> splits[k] <= history[k].m.Length()
    decreases |history|
  {
    if history == [] then volume[i]
    else
      var n := |history| - 1;
      var m := history[n].m;
      assert splits[n] <= m.Length();
      if m.offset <= i < m.offset + splits[n] then m.Payload()[i - m.offset]
      else LastWriter(volume, history[..n], splits[..n], i)
  }

  /** How far each mutation got: somewhere in its payload, and to its end when no call of it failed. */
  predicate SplitsOf(g: Geometry, history: seq<Entry>, splits: seq<nat>)
    requires ValidHistory(g, history)
  {
    && |splits| == |history|
    && forall k :: 0 <= k < |history| ==>
         splits[k] <= history[k].m.Length() && (Completed(g, history[k]) ==> splits[k] == history[k].m.Length())
  }

  /** Every call of the mutation's plan took effect. */
  predicate Completed(g: Geometry, e: Entry) {
    e.m.Length() < TWO64 && e.done == |Plan(g, e.m)|
  }

  /**
   Whichever calls failed, there is one split point per mutation such that every
   byte is the one its last writer in lock order wrote, where a mutation writes
   its payload up to its split point and nothing else, although it rewrites
   whole backend blocks.
   */
  lemma {:induction false} SerialIsLastWriter(g: Geometry, volume: Bytes, history: seq<Entry>) returns (splits: seq<nat>)
    requires Sound(g) && |volume| == g.profile.sizeBytes && ValidHistory(g, history)
    ensures SplitsOf(g, history, splits)
    ensures forall i :: 0 <= i < |volume| ==> Serial(g, volume, history)[i] == LastWriter(volume, history, splits, i)
    decreases |history|
  {
    hide Sound, Advertised, Plan, Exec, Splice;
    if history == [] {
      splits := [];
    } else {
      var n := |history| - 1;
      var last, before := history[n], history[..n];
      assert last in history && forall e :: e in before ==> e in history;
      var prior := SerialIsLastWriter(g, volume, before);
      var k := EntrySplit(g, OpState(Serial(g, volume, before), []), last);
      splits := prior + [k];
      assert splits[..n] == prior;
      forall i | 0 <= i < |volume|
        ensures Serial(g, volume, history)[i] == LastWriter(volume, history, splits, i)
      {
        SpliceAt(Serial(g, volume, before), last.m.offset, last.m.Payload()[..k], i);
      }
    }
  }

  /** One recorded mutation on any contents. */
  lemma EntrySplit(g: Geometry, st: OpState, e: Entry) returns (n: nat)
    requires Sound(g) && |st.volume| == g.profile.sizeBytes && Admissible(g, e.m) && e.done <= |Plan(g, e.m)|
    ensures n <= e.m.Length() == |e.m.Payload()| && (Completed(g, e) ==> n == e.m.Length())
    ensures e.m.offset + n <= |st.volume|
    ensures Exec(Plan(g, e.m)[..e.done], st).volume == Splice(st.volume, e.m.offset, e.m.Payload()[..n])
  {
    hide Sound, Advertised, Plan, Exec, Splice;
    AdvertisedBound(g);
    n := MutationSplit(g, e.m, e.done, st);
  }

  predicate Apart(a: Mutation, b: Mutation) {
    a.offset + a.Length() <= b.offset || b.offset + b.Length() <= a.offset
  }

  /** A completed mutation that every later one stays clear of is there in full. */
  lemma {:induction false} LastWriterSurvives(g: Geometry, volume: Bytes, history: seq<Entry>, splits: seq<nat>, p: nat, i: nat)
    requires ValidHistory(g, history) && SplitsOf(g, history, splits) && p < |history| && Completed(g, history[p])
    requires forall q :: p < q < |history| ==> Apart(history[q].m, history[p].m)
    requires i < history[p].m.Length() && history[p].m.offset + i < |volume|
    ensures LastWriter(volume, history, splits, history[p].m.offset + i) == history[p].m.Payload()[i]
    decreases |history|
  {
    hide Admissible, Plan;
    var n := |history| - 1;
    if p < n {
      var before, prior := history[..n], splits[..n];
      assert forall e :: e in before ==> e in history;
      LastWriterSurvives(g, volume, before, prior, p, i);
      assert Apart(history[n].m, history[p].m);
    }
  }

  /**
   No lost update, for any callers, any interleaving and any failing calls: in
   every reachable state a completed mutation is there in full unless a later
   one, finished or under way, overlaps its range.
   */
  lemma NoLostUpdate(g: Geometry, volume: Bytes, ops: seq<Mutation>, actions: seq<Action>, p: nat, i: nat)
    requires Sound(g) && |volume| == g.profile.sizeBytes && forall m :: m in ops ==> Admissible(g, m)
    requires
      var w := Run(g, Initial(volume, ops), actions);
      && p < |w.history| && Completed(g, w.history[p]) && i < w.history[p].m.Length()
      && (forall q :: p < q < |w.history| ==> Apart(w.history[q].m, w.history[p].m))
      && (w.lock.HeldBy? && w.lock.job < |w.jobs| ==> Apart(w.jobs[w.lock.job].m, w.history[p].m))
    ensures
      var w := Run(g, Initial(volume, ops), actions);
      var m := w.history[p].m;
      m.offset + i < |w.volume| && w.volume[m.offset + i] == m.Payload()[i]
  {
    hide Sound, Plan, Run, Serial, Advertised, Exec, Admissible, SplitsOf;
    var w := Run(g, Initial(volume, ops), actions);
    InitialInv(g, volume, ops);
    RunKeepsInv(g, volume, Initial(volume, ops), actions);
    var m := w.history[p].m;
    InVolume(g, volume, w.history, p);
    var splits := SerialIsLastWriter(g, volume, w.history);
    LastWriterSurvives(g, volume, w.history, splits, p, i);
    if w.lock.HeldBy? {
      var job := w.jobs[w.lock.job];
      HolderApart(g, OpState(Serial(g, volume, w.history), []), job.m, job.done, m.offset + i);
    }
  }

  lemma InitialInv(g: Geometry, volume: Bytes, ops: seq<Mutation>)
    requires forall m :: m in ops ==> Admissible(g, m)
    ensures Inv(g, volume, Initial(volume, ops))
  {
    hide Admissible;
  }

  lemma InVolume(g: Geometry, volume: Bytes, history: seq<Entry>, p: nat)
    requires |volume| == g.profile.sizeBytes && ValidHistory(g, history) && p < |history|
    ensures history[p].m.offset + history[p].m.Length() <= |volume|
  {
    AdvertisedBound(g);
    hide Advertised, Plan;
    assert history[p] in history;
  }

  /** Part of a mutation changes no byte outside its range. */
  lemma HolderApart(g: Geometry, st: OpState, m: Mutation, done: nat, at: nat)
    requires Sound(g) && |st.volume| == g.profile.sizeBytes && Admissible(g, m) && done <= |Plan(g, m)|
    requires at < |st.volume| && (at < m.offset || m.offset + m.Length() <= at)
    ensures Exec(Plan(g, m)[..done], st).volume[at] == st.volume[at]
  {
    hide Sound, Advertised, Plan, Exec, Splice;
    var n := EntrySplit(g, st, Entry(0, m, done));
    SpliceAt(st.volume, m.offset, m.Payload()[..n], at);
  }

  /** The recorded mutations are those asked for: entry `p` is that of its caller. */
  lemma HistoryOfCallers(g: Geometry, volume: Bytes, ops: seq<Mutation>, actions: seq<Action>, p: nat)
    requires forall m :: m in ops ==> Admissible(g, m)
    requires ValidJobs(g, Initial(volume, ops).jobs) && p < |Run(g, Initial(volume, ops), actions).history|
    ensures
      var e := Run(g, Initial(volume, ops), actions).history[p];
      e.job < |ops| && e.m == ops[e.job]
  {
    hide Admissible, Run;
    Serializable(g, volume, ops, actions);
    JobsKeepMutations(g, Initial(volume, ops), actions);
    var w := Run(g, Initial(volume, ops), actions);
    assert w.history[p] in w.history;
  }

  lemma {:induction false} JobsKeepMutations(g: Geometry, w: World, actions: seq<Action>)
    requires ValidJobs(g, w.jobs)
    ensures |Run(g, w, actions).jobs| == |w.jobs|
    ensures forall t :: 0 <= t < |w.jobs| ==> Run(g, w, actions).jobs[t].m == w.jobs[t].m
    decreases |actions|
  {
    if actions != [] {
      JobsKeepMutations(g, Apply(g, w, actions[0]), actions[1..]);
    }
  }
}
