/** One generation of export runtimes and its atomic publication (iscsi/supervisor.go, iscsi/live_reload.go). */
module Supervisor {
  import opened Words
  import opened Text
  import opened Registry

  /** `store` identifies the backing store; None is a nil interface. */
  datatype Spec = Spec(
    exportID: string, volumeID: string, targetIQN: string, lunID: U64, lunWWN: string, deviceID: U64, sizeBytes: U64,
    activeGatewayID: string, leaseID: string, epoch: U64, writeAdmission: string, initialMemory: U64, store: Option<nat>)

  datatype RuntimeState = Starting | Serving | Stopped

  datatype Runtime = Runtime(spec: Spec, state: RuntimeState)

  /** A prepared runtime; `id` tells one Prepare call from another, `closable` whether it came with a Close. */
  datatype Prepared = Prepared(id: nat, state: ExportState, spec: Spec, closable: bool)

  function NormalizeSpec(s: Spec): Spec {
    s.(exportID := Trim(s.exportID), volumeID := Trim(s.volumeID), targetIQN := Trim(s.targetIQN), lunWWN := Trim(s.lunWWN),
       activeGatewayID := Trim(s.activeGatewayID), writeAdmission := Trim(s.writeAdmission))
  }

  predicate ValidSpec(s: Spec) {
    && s.exportID != "" && s.volumeID != "" && s.targetIQN != "" && s.lunWWN != ""
    && s.deviceID != 0 && s.sizeBytes != 0 && s.store.Some?
  }

  /** Two exports that one target process can serve side by side. */
  predicate Distinct(a: Spec, b: Spec) {
    a.exportID != b.exportID && a.targetIQN != b.targetIQN && a.deviceID != b.deviceID
  }

  function Normalized(specs: seq<Spec>): (r: seq<Spec>)
    ensures |r| == |specs|
  {
    seq(|specs|, i requires 0 <= i < |specs| => NormalizeSpec(specs[i]))
  }

  /** A list of normalised specs that can be installed together. */
  predicate Installable(specs: seq<Spec>) {
    && (forall i :: 0 <= i < |specs| ==> ValidSpec(specs[i]))
    && (forall i, j :: 0 <= i < j < |specs| ==> Distinct(specs[i], specs[j]))
  }

  predicate Clashes(specs: seq<Spec>, s: Spec) {
    exists i :: 0 <= i < |specs| && !Distinct(specs[i], s)
  }

  /** The runtimes are exactly one per spec, under the spec's id, all in the given state. */
  ghost predicate Holds(runtimes: map<string, Runtime>, specs: seq<Spec>, state: RuntimeState) {
    && (forall s :: s in specs ==> s.exportID in runtimes && runtimes[s.exportID] == Runtime(s, state))
    && (forall id :: id in runtimes ==> runtimes[id].spec in specs && runtimes[id].spec.exportID == id)
    && |runtimes| == |specs|
  }

  class MultiExportSupervisor {
    const maxExports: nat
    var runtimes: map<string, Runtime>

    constructor (maxExports: nat)
      ensures this.maxExports == maxExports && runtimes == map[]
    {
      this.maxExports, this.runtimes := maxExports, map[];
    }

    /** Install accepts a list exactly when it fits, is valid and pairwise distinct, and installs all of it or nothing. */
    method Install(specs: seq<Spec>) returns (ok: bool)
      modifies this
      ensures ok <==> |specs| <= maxExports && Installable(Normalized(specs)) && old(runtimes) == map[]
      ensures ok ==> Holds(runtimes, Normalized(specs), Starting)
      ensures !ok ==> runtimes == old(runtimes)
    {
      hide NormalizeSpec, ValidSpec, Holds, Installable, Clashes;
      if |specs| > maxExports {
        return false;
      }
      var next: map<string, Runtime> := map[];
      var targets: set<string>, devices: set<U64> := {}, {};
      ghost var done: seq<Spec> := [];
      NothingInstalled();
      for i := 0 to |specs|
        invariant done == Normalized(specs)[..i] && runtimes == old(runtimes)
        invariant Installable(done) && Holds(next, done, Starting)
        invariant targets == (set s | s in done :: s.targetIQN) && devices == (set s | s in done :: s.deviceID)
      {
        var spec := NormalizeSpec(specs[i]);
        assert Normalized(specs)[i] == spec;
        ClashIff(done, next, spec);
        if !ValidSpec(spec) || spec.exportID in next || spec.targetIQN in targets || spec.deviceID in devices {
          Rejected(Normalized(specs), i);
          return false;
        }
        OneMore(done, next, spec);
        targets, devices := targets + {spec.targetIQN}, devices + {spec.deviceID};
        next := next[spec.exportID := Runtime(spec, Starting)];
        done := done + [spec];
      }
      assert done == Normalized(specs);
      if |runtimes| != 0 {
        return false;
      }
      runtimes := next;
      ok := true;
    }

    /** Every runtime is serving afterwards; which exports there are and what they run on does not change. */
    method MarkServing()
      modifies this
      ensures Marked(old(runtimes), runtimes, Serving)
    {
      SetStates(Serving);
    }

    /** Every runtime is stopped afterwards; which exports there are and what they run on does not change. */
    method MarkStopped()
      modifies this
      ensures Marked(old(runtimes), runtimes, Stopped)
    {
      SetStates(Stopped);
    }

    /** The loop both share: one setState per runtime, in any order. */
    method SetStates(state: RuntimeState)
      modifies this
      ensures Marked(old(runtimes), runtimes, state)
    {
      var left := runtimes.Keys;
      while left != {}
        invariant left <= runtimes.Keys == old(runtimes).Keys
        invariant forall id :: id in runtimes ==> runtimes[id].spec == old(runtimes)[id].spec
        invariant forall id :: id in runtimes && id !in left ==> runtimes[id].state == state
        decreases |left|
      {
        var id :| id in left;
        left := left - {id};
        runtimes := runtimes[id := runtimes[id].(state := state)];
      }
    }
  }

  /** The same exports with the same specs, all in the given state. */
  ghost predicate Marked(before: map<string, Runtime>, after: map<string, Runtime>, state: RuntimeState) {
    && after.Keys == before.Keys
    && forall id :: id in after ==> after[id].spec == before[id].spec && after[id].state == state
  }

  lemma NothingInstalled()
    ensures Installable([]) && Holds(map[], [], Starting)
  {
  }

  lemma Rejected(specs: seq<Spec>, i: nat)
    requires i < |specs| && (!ValidSpec(specs[i]) || Clashes(specs[..i], specs[i]))
    ensures !Installable(specs)
  {
    if ValidSpec(specs[i]) {
      var j :| 0 <= j < i && !Distinct(specs[..i][j], specs[i]);
      assert specs[..i][j] == specs[j];
    }
  }

  /** The three lookups of Install find exactly the clashes with what came before. */
  lemma ClashIff(done: seq<Spec>, next: map<string, Runtime>, s: Spec)
    requires Holds(next, done, Starting)
    ensures Clashes(done, s) <==>
      s.exportID in next || s.targetIQN in (set t | t in done :: t.targetIQN) || s.deviceID in (set t | t in done :: t.deviceID)
  {
    hide ValidSpec;
    if Clashes(done, s) {
      var i :| 0 <= i < |done| && !Distinct(done[i], s);
      assert done[i] in done;
    } else {
      forall t | t in done
        ensures Distinct(t, s)
      {
        var i :| 0 <= i < |done| && done[i] == t;
      }
    }
  }

  lemma OneMore(done: seq<Spec>, next: map<string, Runtime>, s: Spec)
    requires Installable(done) && Holds(next, done, Starting) && ValidSpec(s) && !Clashes(done, s) && s.exportID !in next
    ensures Installable(done + [s])
    ensures Holds(next[s.exportID := Runtime(s, Starting)], done + [s], Starting)
    ensures (set t | t in done + [s] :: t.targetIQN) == (set t | t in done :: t.targetIQN) + {s.targetIQN}
    ensures (set t | t in done + [s] :: t.deviceID) == (set t | t in done :: t.deviceID) + {s.deviceID}
  {
    hide ValidSpec, Distinct, Holds;
    assert forall i :: 0 <= i < |done| ==> Distinct(done[i], s);
    assert (done + [s])[|done|] == s;
    assert Holds(next[s.exportID := Runtime(s, Starting)], done + [s], Starting) by {
      HoldsOneMore(done, next, s);
    }
  }

  lemma HoldsOneMore(done: seq<Spec>, next: map<string, Runtime>, s: Spec)
    requires Holds(next, done, Starting) && s.exportID !in next
    ensures Holds(next[s.exportID := Runtime(s, Starting)], done + [s], Starting)
  {
  }

  // ------------------------------------------------------------- publication

  function SpecOf(p: Prepared): Spec {
    NormalizeSpec(p.spec)
  }

  /** Exports one supervisor accepts, whatever order they come in. */
  predicate Compatible(exports: map<string, Prepared>) {
    && (forall k :: k in exports ==> ValidSpec(SpecOf(exports[k])))
    && (forall k, l :: k in exports && l in exports && k != l ==> Distinct(SpecOf(exports[k]), SpecOf(exports[l])))
  }

  /** Exactly one runtime per export, made from its spec. */
  ghost predicate Publishes(runtimes: map<string, Runtime>, exports: map<string, Prepared>, state: RuntimeState) {
    && (forall k :: k in exports ==>
          SpecOf(exports[k]).exportID in runtimes && runtimes[SpecOf(exports[k]).exportID] == Runtime(SpecOf(exports[k]), state))
    && (forall id :: id in runtimes ==>
          runtimes[id].spec.exportID == id && exists k :: k in exports && runtimes[id].spec == SpecOf(exports[k]))
    && |runtimes| == |exports|
  }

  /** Publishes one fully validated supervisor; readers see the previous pointer or the next one. */
  class AtomicSupervisorGeneration {
    const maxExports: nat
    var current: MultiExportSupervisor?

    constructor (maxExports: nat)
      ensures this.maxExports == maxExports && current == null
    {
      this.maxExports, this.current := maxExports, null;
    }

    /** All of the exports or none: a refusal leaves the published generation alone, a success stops it. */
    method Apply(exports: map<string, Prepared>) returns (ok: bool)
      modifies this, current
      ensures ok <==> |exports| <= maxExports && Compatible(exports)
      ensures !ok ==> current == old(current) && (current != null ==> current.runtimes == old(current.runtimes))
      ensures ok ==> current != null && fresh(current) && Publishes(current.runtimes, exports, Serving)
      ensures ok && old(current) != null ==> Marked(old(current.runtimes), old(current).runtimes, Stopped)
    {
      hide NormalizeSpec, ValidSpec, Holds, Installable, Publishes, Compatible, Normalized, SpecOf, Arranges, Marked;
      var supervisor := new MultiExportSupervisor(maxExports);
      var specs, keys := ListSpecs(exports);
      ghost var n := Normalized(specs);
      EnumeratesArranges(exports, keys, specs);
      OrderIrrelevant(exports, keys, n);
      ok := supervisor.Install(specs);
      if ok {
        ghost var starting := supervisor.runtimes;
        supervisor.MarkServing();
        HoldsPublishes(exports, keys, n, starting, supervisor.runtimes);
        var previous := current;
        current := supervisor;
        if previous != null {
          previous.MarkStopped();
        }
      }
    }
  }

  /** `keys` lists the exports once each and `specs` their specs in that order. */
  ghost predicate Enumerates(exports: map<string, Prepared>, keys: seq<string>, specs: seq<Spec>) {
    && |keys| == |specs| == |exports|
    && (forall i :: 0 <= i < |keys| ==> keys[i] in exports && specs[i] == exports[keys[i]].spec)
    && (forall i, j :: 0 <= i < j < |keys| ==> keys[i] != keys[j])
    && (forall k :: k in exports ==> k in keys)
  }

  method ListSpecs(exports: map<string, Prepared>) returns (specs: seq<Spec>, ghost keys: seq<string>)
    ensures Enumerates(exports, keys, specs)
  {
    var left := exports.Keys;
    specs, keys := [], [];
    while left != {}
      invariant left <= exports.Keys && |keys| == |specs| && |specs| + |left| == |exports.Keys|
      invariant forall i :: 0 <= i < |keys| ==> keys[i] in exports && keys[i] !in left && specs[i] == exports[keys[i]].spec
      invariant forall i, j :: 0 <= i < j < |keys| ==> keys[i] != keys[j]
      invariant forall k :: k in exports ==> k in left || k in keys
      decreases |left|
    {
      var k :| k in left;
      left := left - {k};
      specs, keys := specs + [exports[k].spec], keys + [k];
    }
    assert |exports.Keys| == |exports|;
  }

  /** The same for the normalised specs, with an index for every export. */
  ghost predicate Arranges(exports: map<string, Prepared>, keys: seq<string>, n: seq<Spec>) {
    && |keys| == |n| == |exports|
    && (forall i :: 0 <= i < |n| ==> keys[i] in exports && n[i] == SpecOf(exports[keys[i]]))
    && (forall i, j :: 0 <= i < j < |keys| ==> keys[i] != keys[j])
    && (forall k :: k in exports ==> k in keys)
  }

  lemma EnumeratesArranges(exports: map<string, Prepared>, keys: seq<string>, specs: seq<Spec>)
    requires Enumerates(exports, keys, specs)
    ensures Arranges(exports, keys, Normalized(specs))
  {
    hide NormalizeSpec;
  }

  lemma IndexOf(exports: map<string, Prepared>, keys: seq<string>, n: seq<Spec>, k: string) returns (i: nat)
    requires Arranges(exports, keys, n) && k in exports
    ensures i < |n| && keys[i] == k && n[i] == SpecOf(exports[k])
  {
    hide SpecOf;
    i :| 0 <= i < |keys| && keys[i] == k;
  }

  lemma OrderIrrelevant(exports: map<string, Prepared>, keys: seq<string>, n: seq<Spec>)
    requires Arranges(exports, keys, n)
    ensures Installable(n) <==> Compatible(exports)
  {
    hide SpecOf, ValidSpec, Distinct;
    if Installable(n) {
      forall k | k in exports
        ensures ValidSpec(SpecOf(exports[k]))
      {
        var i := IndexOf(exports, keys, n, k);
      }
      forall k, l | k in exports && l in exports && k != l
        ensures Distinct(SpecOf(exports[k]), SpecOf(exports[l]))
      {
        var i := IndexOf(exports, keys, n, k);
        var j := IndexOf(exports, keys, n, l);
        DistinctSymmetric(n[i], n[j]);
      }
    }
  }

  lemma DistinctSymmetric(a: Spec, b: Spec)
    ensures Distinct(a, b) <==> Distinct(b, a)
  {
  }

  lemma HoldsPublishes(exports: map<string, Prepared>, keys: seq<string>, n: seq<Spec>, runtimes: map<string, Runtime>,
                       serving: map<string, Runtime>)
    requires Arranges(exports, keys, n) && Holds(runtimes, n, Starting) && Marked(runtimes, serving, Serving)
    ensures Publishes(serving, exports, Serving)
  {
    hide SpecOf, Arranges;
    assert |runtimes| == |exports| by {
      assert |n| == |exports| by { SameSize(exports, keys, n); }
    }
    forall k | k in exports
      ensures SpecOf(exports[k]) in n
    {
      var i := IndexOf(exports, keys, n, k);
      assert n[i] in n;
    }
    forall id | id in runtimes
      ensures exists k :: k in exports && runtimes[id].spec == SpecOf(exports[k])
    {
      var k := KeyOf(exports, keys, n, runtimes[id].spec);
    }
    assert |serving.Keys| == |serving| && |runtimes.Keys| == |runtimes|;
  }

  lemma SameSize(exports: map<string, Prepared>, keys: seq<string>, n: seq<Spec>)
    requires Arranges(exports, keys, n)
    ensures |n| == |exports|
  {
  }

  lemma KeyOf(exports: map<string, Prepared>, keys: seq<string>, n: seq<Spec>, s: Spec) returns (k: string)
    requires Arranges(exports, keys, n) && s in n
    ensures k in exports && s == SpecOf(exports[k])
  {
    hide SpecOf;
    var i :| 0 <= i < |n| && n[i] == s;
    k := keys[i];
  }
}
