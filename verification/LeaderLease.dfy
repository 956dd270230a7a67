/**
 The leader lease of sbs-service (cmd/sbs-service/leader.go): any number of nodes
 share one transactional key that holds the current lease.  A node samples the
 clock inside its transaction, commits, and only later installs the result
 locally; the clock, other nodes, failed and ambiguous commits, and shutdown
 interleave with all of that.
 */
module LeaderLease {

  const NANOS_PER_SECOND: int := 1_000_000_000

  type NodeID = string

  datatype Record = Record(node: NodeID, acquired: int, expires: int)

  const NO_RECORD := Record("", 0, 0)

  /** The shared key: missing, not decodable, or a lease. */
  datatype Stored = Absent | Corrupt | Held(lease: Record)

  datatype TxResult = TxResult(stored: Stored, next: Record, leader: bool, failed: bool)

  /** Seconds since the epoch, truncated. */
  function Unix(t: int): int {
    t / NANOS_PER_SECOND
  }

  lemma UnixMonotone(a: int, b: int)
    requires a <= b
    ensures Unix(a) <= Unix(b)
  {
  }

  predicate Expired(r: Record, now: int) {
    r.expires == 0 || r.expires <= Unix(now)
  }

  /** The transaction of `acquireOrRenew`, with the clock sampled as `now` inside it. */
  function AcquireTx(stored: Stored, self: NodeID, now: int, lease: int): TxResult {
    match stored
    case Absent =>
      var next := Record(self, Unix(now), Unix(now + lease));
      TxResult(Held(next), next, true, false)
    case Corrupt => TxResult(stored, NO_RECORD, false, true)
    case Held(current) =>
      if current.node == self || current.expires <= Unix(now) then
        var acquired := if current.node != self || current.acquired == 0 then Unix(now) else current.acquired;
        var next := Record(self, acquired, Unix(now + lease));
        TxResult(Held(next), next, true, false)
      else TxResult(stored, current, false, false)
  }

  /** The transaction of `Release`. */
  function ReleaseTx(stored: Stored, self: NodeID): (Stored, bool) {
    match stored
    case Absent => (stored, false)
    case Corrupt => (stored, true)
    case Held(current) => if current.node == self then (Absent, false) else (stored, false)
  }

  // ------------------------------------------------------------- the cluster

  datatype Phase =
    | Idle
    | InTx(sampled: int)
    | HasResult(next: Record, leader: bool, txFailed: bool)
    | Releasing
    | Clearing
    | FlagClearing
    | Stopped

  datatype Node = Node(lease: int, current: Record, isLeader: bool, failed: bool, phase: Phase)
  {
    /** Run calls Release once, on its way out, and never refreshes again. */
    predicate BegunRelease() {
      phase.Releasing? || phase.Clearing? || phase.FlagClearing? || phase.Stopped?
    }
  }

  function Fresh(lease: int): Node {
    Node(lease, NO_RECORD, false, false, Idle)
  }

  datatype Cluster = Cluster(now: int, stored: Stored, nodes: map<NodeID, Node>)

  datatype Action =
    | Tick(elapsed: nat)
    | BeginTx(n: NodeID)
    | RetryTx(n: NodeID)
    | Commit(n: NodeID)
    | FailTx(n: NodeID, applied: bool)
    | Install(n: NodeID)
    | BeginRelease(n: NodeID)
    | CommitRelease(n: NodeID)
    | FailRelease(n: NodeID, applied: bool)
    | ClearRecord(n: NodeID)
    | ClearFlag(n: NodeID)
    | Restart(n: NodeID)

  predicate Ready(node: Node, self: NodeID, now: int) {
    !node.failed && node.isLeader && node.current.node == self && !Expired(node.current, now)
  }

  predicate Enabled(c: Cluster, a: Action) {
    match a
    case Tick(_) => true
    case BeginTx(n) => n in c.nodes && c.nodes[n].phase.Idle?
    case RetryTx(n) => n in c.nodes && c.nodes[n].phase.InTx?
    case Commit(n) => n in c.nodes && c.nodes[n].phase.InTx?
    case FailTx(n, _) => n in c.nodes && c.nodes[n].phase.InTx?
    case Install(n) => n in c.nodes && c.nodes[n].phase.HasResult?
    case BeginRelease(n) => n in c.nodes && c.nodes[n].phase.Idle?
    case CommitRelease(n) => n in c.nodes && c.nodes[n].phase.Releasing?
    case FailRelease(n, _) => n in c.nodes && c.nodes[n].phase.Releasing?
    case ClearRecord(n) => n in c.nodes && c.nodes[n].phase.Clearing?
    case ClearFlag(n) => n in c.nodes && c.nodes[n].phase.FlagClearing?
    case Restart(n) => n in c.nodes && (c.nodes[n].phase.Idle? || c.nodes[n].phase.HasResult? || c.nodes[n].phase.Stopped?)
  }

  function SetPhase(c: Cluster, n: NodeID, p: Phase): Cluster
    requires n in c.nodes
  {
    c.(nodes := c.nodes[n := c.nodes[n].(phase := p)])
  }

  function Apply(c: Cluster, a: Action): Cluster {
    if !Enabled(c, a) then c
    else
      match a
      case Tick(d) => c.(now := c.now + d)
      case BeginTx(n) => SetPhase(c, n, InTx(c.now))
      case RetryTx(n) => SetPhase(c, n, InTx(c.now))
      case Commit(n) =>
        var r := AcquireTx(c.stored, n, c.nodes[n].phase.sampled, c.nodes[n].lease);
        SetPhase(c, n, HasResult(r.next, r.leader, r.failed)).(stored := r.stored)
      case FailTx(n, applied) =>
        var r := AcquireTx(c.stored, n, c.nodes[n].phase.sampled, c.nodes[n].lease);
        SetPhase(c, n, HasResult(r.next, r.leader, true)).(stored := if applied then r.stored else c.stored)
      case Install(n) =>
        var p := c.nodes[n].phase;
        c.(nodes := c.nodes[n := Node(c.nodes[n].lease, p.next, p.leader && !p.txFailed, p.txFailed, Idle)])
      case BeginRelease(n) =>
        var node := c.nodes[n];
        SetPhase(c, n, if !node.failed && node.isLeader && node.current.node == n then Releasing else Stopped)
      case CommitRelease(n) =>
        var (stored, failed) := ReleaseTx(c.stored, n);
        SetPhase(c, n, if failed then Stopped else Clearing).(stored := stored)
      case FailRelease(n, applied) =>
        SetPhase(c, n, Stopped).(stored := if applied then ReleaseTx(c.stored, n).0 else c.stored)
      case ClearRecord(n) =>
        c.(nodes := c.nodes[n := c.nodes[n].(current := NO_RECORD, failed := false, phase := FlagClearing)])
      case ClearFlag(n) =>
        c.(nodes := c.nodes[n := c.nodes[n].(isLeader := false, phase := Stopped)])
      case Restart(n) => c.(nodes := c.nodes[n := Fresh(c.nodes[n].lease)])
  }

  function Run(c: Cluster, actions: seq<Action>): Cluster
    decreases |actions|
  {
    if actions == [] then c else Run(Apply(c, actions[0]), actions[1..])
  }

  predicate Initial(c: Cluster) {
    forall n :: n in c.nodes ==> c.nodes[n] == Fresh(c.nodes[n].lease)
  }

  // ------------------------------------------------------------ mutual exclusion

  /** The stored key names `n` with an expiry no earlier than `r`'s. */
  predicate Backs(stored: Stored, n: NodeID, r: Record) {
    stored.Held? && stored.lease.node == n && r.expires <= stored.lease.expires
  }

  /** A claim to leadership of `n` is backed by the key for as long as it has not expired. */
  predicate Claim(c: Cluster, n: NodeID, r: Record) {
    r.node == n && (Expired(r, c.now) || Backs(c.stored, n, r))
  }

  predicate NodeInv(c: Cluster, n: NodeID)
    requires n in c.nodes
  {
    var node := c.nodes[n];
    !node.BegunRelease() ==>
      && (node.isLeader ==> !node.failed && Claim(c, n, node.current) && node.current.expires <= Unix(c.now + node.lease))
      && (node.phase.HasResult? && node.phase.leader && !node.phase.txFailed ==>
            Claim(c, n, node.phase.next) && node.phase.next.expires <= Unix(c.now + node.lease))
      && (node.phase.InTx? ==>
            (node.phase.sampled <= c.now
             && (node.isLeader ==> node.current.expires <= Unix(node.phase.sampled + node.lease))))
  }

  predicate Inv(c: Cluster) {
    forall n :: n in c.nodes ==> NodeInv(c, n)
  }

  /** What a commit hands to its node is backed by what it wrote. */
  lemma CommitIsClaim(c: Cluster, n: NodeID, t: int, lease: int)
    requires t <= c.now
    ensures
      var r := AcquireTx(c.stored, n, t, lease);
      r.leader ==> Claim(c.(stored := r.stored), n, r.next) && r.next.expires <= Unix(c.now + lease)
  {
    UnixMonotone(t + lease, c.now + lease);
  }

  lemma ApplyKeepsInv(c: Cluster, a: Action)
    requires Inv(c)
    ensures Inv(Apply(c, a))
  {
    var c' := Apply(c, a);
    if !Enabled(c, a) {
    } else {
      forall m | m in c'.nodes
        ensures NodeInv(c', m)
      {
        assert NodeInv(c, m);
        match a
        case Tick(d) => TickKeepsNode(c, d, m);
        case Commit(n) => CommitKeepsNode(c, n, m, a);
        case FailTx(n, _) => CommitKeepsNode(c, n, m, a);
        case _ =>
      }
    }
  }

  lemma TickKeepsNode(c: Cluster, d: nat, m: NodeID)
    requires m in c.nodes && NodeInv(c, m)
    ensures NodeInv(Apply(c, Tick(d)), m)
  {
    UnixMonotone(c.now, c.now + d);
    UnixMonotone(c.now + c.nodes[m].lease, c.now + d + c.nodes[m].lease);
  }

  lemma CommitKeepsNode(c: Cluster, n: NodeID, m: NodeID, a: Action)
    requires a.Commit? || a.FailTx?
    requires a.n == n && Enabled(c, a) && m in c.nodes && NodeInv(c, m) && NodeInv(c, n)
    ensures NodeInv(Apply(c, a), m)
  {
    var t, lease := c.nodes[n].phase.sampled, c.nodes[n].lease;
    CommitIsClaim(c, n, t, lease);
  }

  lemma {:induction false} RunKeepsInv(c: Cluster, actions: seq<Action>)
    requires Inv(c)
    ensures Inv(Run(c, actions))
    decreases |actions|
  {
    if actions != [] {
      ApplyKeepsInv(c, actions[0]);
      RunKeepsInv(Apply(c, actions[0]), actions[1..]);
    }
  }

  /**
   In every interleaving, from any stored key, at most one node that has not
   begun to release is ready to mutate, and while it is, the stored key names it
   with an expiry at least as late as its own record's.
   */
  lemma MutualExclusion(c: Cluster, actions: seq<Action>, a: NodeID, b: NodeID)
    requires Initial(c)
    ensures var c' := Run(c, actions);
      Leads(c', a) ==> Backs(c'.stored, a, c'.nodes[a].current)
    ensures var c' := Run(c, actions);
      Leads(c', a) && Leads(c', b) ==> a == b
  {
    RunKeepsInv(c, actions);
    var c' := Run(c, actions);
    assert a in c'.nodes ==> NodeInv(c', a);
    assert b in c'.nodes ==> NodeInv(c', b);
  }

  /** `n` is ready to mutate and has not begun to release. */
  predicate Leads(c: Cluster, n: NodeID) {
    n in c.nodes && Ready(c.nodes[n], n, c.now) && !c.nodes[n].BegunRelease()
  }

  // ------------------------------------------------- what is not exclusive

  /** `IsLeader` ignores expiry: a node whose lease has run out still says it leads beside the new leader. */
  lemma IsLeaderIsNotExclusive(lease: nat) returns (c: Cluster, actions: seq<Action>)
    ensures Initial(c) && forall x :: x in actions ==> !x.BeginRelease?
    ensures
      var nodes := Run(c, actions).nodes;
      "a" in nodes && "b" in nodes && nodes["a"].isLeader && nodes["b"].isLeader
  {
    hide Run;
    c := Cluster(0, Absent, map["a" := Fresh(lease), "b" := Fresh(lease)]);
    TakeLease(c, "a");
    var c1 := Run(c, Refresh("a"));
    var c2 := Apply(c1, Tick(lease));
    TakeLease(c2, "b");
    RunOne(c1, Tick(lease));
    RunConcat(c1, [Tick(lease)], Refresh("b"));
    RunConcat(c, Refresh("a"), [Tick(lease)] + Refresh("b"));
    actions := Refresh("a") + ([Tick(lease)] + Refresh("b"));
  }

  /**
   What `IsLeader` does mean: in every run, for a node that has not begun to
   release, being flagged as leader with an unexpired record is being ready to
   mutate, so of two flagged nodes one has an expired record.
   */
  lemma IsLeaderUnexpiredIff(c: Cluster, actions: seq<Action>, a: NodeID, b: NodeID)
    requires Initial(c)
    ensures
      var c' := Run(c, actions);
      a in c'.nodes && !c'.nodes[a].BegunRelease() ==>
        (Leads(c', a) <==> c'.nodes[a].isLeader && !Expired(c'.nodes[a].current, c'.now))
    ensures
      var c' := Run(c, actions);
      && a != b && a in c'.nodes && b in c'.nodes && !c'.nodes[a].BegunRelease() && !c'.nodes[b].BegunRelease()
      && c'.nodes[a].isLeader && c'.nodes[b].isLeader ==>
        Expired(c'.nodes[a].current, c'.now) || Expired(c'.nodes[b].current, c'.now)
  {
    hide Run;
    RunKeepsInv(c, actions);
    var c' := Run(c, actions);
    MutualExclusion(c, actions, a, b);
    assert a in c'.nodes ==> NodeInv(c', a);
    assert b in c'.nodes ==> NodeInv(c', b);
  }

  function Refresh(n: NodeID): seq<Action> {
    [BeginTx(n), Commit(n), Install(n)]
  }

  lemma RunOne(c: Cluster, a: Action)
    ensures Run(c, [a]) == Apply(c, a)
  {
    assert [a][1..] == [];
  }

  lemma RunRefresh(c: Cluster, n: NodeID)
    ensures Run(c, Refresh(n)) == Apply(Apply(Apply(c, BeginTx(n)), Commit(n)), Install(n))
  {
    hide Apply;
    assert Refresh(n)[1..] == [Commit(n), Install(n)];
    assert [Commit(n), Install(n)][1..] == [Install(n)];
    RunOne(Apply(Apply(c, BeginTx(n)), Commit(n)), Install(n));
  }

  /** A refresh with nothing in between installs what the transaction found. */
  lemma RefreshAlone(c: Cluster, n: NodeID)
    requires n in c.nodes && c.nodes[n].phase.Idle?
    ensures
      var r := AcquireTx(c.stored, n, c.now, c.nodes[n].lease);
      Run(c, Refresh(n))
        == Cluster(c.now, r.stored, c.nodes[n := Node(c.nodes[n].lease, r.next, r.leader && !r.failed, r.failed, Idle)])
  {
    hide Run, AcquireTx, Apply;
    RunRefresh(c, n);
    var r := AcquireTx(c.stored, n, c.now, c.nodes[n].lease);
    var c1, c2 := Apply(c, BeginTx(n)), Apply(Apply(c, BeginTx(n)), Commit(n));
    assert c1 == SetPhase(c, n, InTx(c.now)) by { BeginStep(c, n); }
    assert c2 == SetPhase(c, n, HasResult(r.next, r.leader, r.failed)).(stored := r.stored) by { CommitStep(c, c1, n); }
    InstallStep(c, c2, n, r);
  }

  lemma BeginStep(c: Cluster, n: NodeID)
    requires n in c.nodes && c.nodes[n].phase.Idle?
    ensures Apply(c, BeginTx(n)) == SetPhase(c, n, InTx(c.now))
  {
  }

  lemma CommitStep(c: Cluster, c1: Cluster, n: NodeID)
    requires n in c.nodes && c1 == SetPhase(c, n, InTx(c.now))
    ensures
      var r := AcquireTx(c.stored, n, c.now, c.nodes[n].lease);
      Apply(c1, Commit(n)) == SetPhase(c, n, HasResult(r.next, r.leader, r.failed)).(stored := r.stored)
  {
    hide AcquireTx;
  }

  lemma InstallStep(c: Cluster, c2: Cluster, n: NodeID, r: TxResult)
    requires n in c.nodes && c2 == SetPhase(c, n, HasResult(r.next, r.leader, r.failed)).(stored := r.stored)
    ensures Apply(c2, Install(n))
      == Cluster(c.now, r.stored, c.nodes[n := Node(c.nodes[n].lease, r.next, r.leader && !r.failed, r.failed, Idle)])
  {
  }

  /** A refresh with nothing in between, by a node that finds the key free or expired. */
  lemma TakeLease(c: Cluster, n: NodeID)
    requires n in c.nodes && c.nodes[n].phase.Idle?
    requires c.stored == Absent || (c.stored.Held? && c.stored.lease.expires <= Unix(c.now))
    ensures
      var r := AcquireTx(c.stored, n, c.now, c.nodes[n].lease);
      Run(c, Refresh(n)) == Cluster(c.now, r.stored, c.nodes[n := Node(c.nodes[n].lease, r.next, true, false, Idle)])
  {
    hide Run, Unix;
    RefreshAlone(c, n);
  }

  lemma {:induction false} RunConcat(c: Cluster, a: seq<Action>, b: seq<Action>)
    ensures Run(c, a + b) == Run(Run(c, a), b)
    decreases |a|
  {
    if a == [] {
      assert a + b == b;
    } else {
      assert (a + b)[1..] == a[1..] + b;
      RunConcat(Apply(c, a[0]), a[1..], b);
    }
  }

  /** Between its release transaction and its local clear a node can still be ready beside its successor. */
  lemma ReleaseWindowIsNotExclusive(lease: nat) returns (c: Cluster, actions: seq<Action>)
    requires NANOS_PER_SECOND <= lease
    ensures Initial(c)
    ensures
      var c' := Run(c, actions);
      "a" in c'.nodes && "b" in c'.nodes && Ready(c'.nodes["a"], "a", c'.now) && Ready(c'.nodes["b"], "b", c'.now)
  {
    hide Run;
    c := Cluster(0, Absent, map["a" := Fresh(lease), "b" := Fresh(lease)]);
    TakeLease(c, "a");
    var c1 := Run(c, Refresh("a"));
    var c2 := Apply(c1, BeginRelease("a"));
    var c3 := Apply(c2, CommitRelease("a"));
    TakeLease(c3, "b");
    RunOne(c1, BeginRelease("a"));
    RunOne(c2, CommitRelease("a"));
    RunConcat(c2, [CommitRelease("a")], Refresh("b"));
    RunConcat(c1, [BeginRelease("a")], [CommitRelease("a")] + Refresh("b"));
    RunConcat(c, Refresh("a"), [BeginRelease("a")] + ([CommitRelease("a")] + Refresh("b")));
    actions := Refresh("a") + ([BeginRelease("a")] + ([CommitRelease("a")] + Refresh("b")));
  }

  // ------------------------------------------------------- agreement on the leader

  /** The answer of `CurrentLeader`: the cached record if it is good, the stored key otherwise. */
  function CurrentLeader(node: Node, stored: Stored, now: int): (r: Record)
    ensures r == NO_RECORD || !Expired(r, now)
  {
    if !node.failed && node.current.node != "" && !Expired(node.current, now) then node.current
    else if stored.Held? && !Expired(stored.lease, now) then stored.lease
    else NO_RECORD
  }

  /** No record naming a known node outlives a lease taken by that node now, or in its open transaction. */
  predicate Bounded(c: Cluster, r: Record) {
    r.node in c.nodes ==>
      && r.expires <= Unix(c.now + c.nodes[r.node].lease)
      && (c.nodes[r.node].phase.InTx? ==> r.expires <= Unix(c.nodes[r.node].phase.sampled + c.nodes[r.node].lease))
  }

  /** A cached record is backed by the key until it expires, unless its node is one of those that release. */
  predicate CacheOk(c: Cluster, released: set<NodeID>, r: Record) {
    r.node in released || Expired(r, c.now) || Backs(c.stored, r.node, r)
  }

  predicate NodeCacheOk(c: Cluster, released: set<NodeID>, n: NodeID)
    requires n in c.nodes
  {
    var node := c.nodes[n];
    && (node.BegunRelease() ==> n in released)
    && (!node.failed ==> CacheOk(c, released, node.current))
    && (node.phase.HasResult? && !node.phase.txFailed ==> CacheOk(c, released, node.phase.next))
    && (node.phase.InTx? ==> node.phase.sampled <= c.now)
  }

  predicate CacheInv(c: Cluster, released: set<NodeID>) {
    && 0 <= c.now && (c.stored.Held? ==> Bounded(c, c.stored.lease))
    && forall n :: n in c.nodes ==> NodeCacheOk(c, released, n)
  }

  lemma ApplyKeepsCache(c: Cluster, released: set<NodeID>, a: Action)
    requires CacheInv(c, released) && (a.BeginRelease? ==> a.n in released)
    ensures CacheInv(Apply(c, a), released)
  {
    if Enabled(c, a) {
      var c' := Apply(c, a);
      UnixMonotone(0, c.now);
      forall m | m in c'.nodes
        ensures NodeCacheOk(c', released, m)
      {
        assert NodeCacheOk(c, released, m);
        if a.Tick? {
          UnixMonotone(c.now, c'.now);
        } else if a.Commit? || a.FailTx? {
          assert NodeCacheOk(c, released, a.n);
          UnixMonotone(c.nodes[a.n].phase.sampled, c.now);
        } else if a.CommitRelease? || a.FailRelease? {
          assert NodeCacheOk(c, released, a.n);
        }
      }
      StoredStaysBounded(c, released, a);
    }
  }

  lemma StoredStaysBounded(c: Cluster, released: set<NodeID>, a: Action)
    requires CacheInv(c, released) && Enabled(c, a)
    ensures var c' := Apply(c, a); c'.stored.Held? ==> Bounded(c', c'.stored.lease)
  {
    var c' := Apply(c, a);
    if a.Tick? && c.stored.Held? && c.stored.lease.node in c.nodes {
      var lease := c.nodes[c.stored.lease.node].lease;
      UnixMonotone(c.now + lease, c'.now + lease);
    } else if a.Commit? || a.FailTx? {
      assert NodeCacheOk(c, released, a.n);
      UnixMonotone(c.nodes[a.n].phase.sampled + c.nodes[a.n].lease, c.now + c.nodes[a.n].lease);
    }
  }

  lemma {:induction false} RunKeepsCache(c: Cluster, released: set<NodeID>, actions: seq<Action>)
    requires CacheInv(c, released) && forall a :: a in actions && a.BeginRelease? ==> a.n in released
    ensures CacheInv(Run(c, actions), released)
    decreases |actions|
  {
    if actions != [] {
      ApplyKeepsCache(c, released, actions[0]);
      RunKeepsCache(Apply(c, actions[0]), released, actions[1..]);
    }
  }

  /** The nodes that begin to release in a run. */
  function Releasers(actions: seq<Action>): set<NodeID> {
    set a | a in actions && a.BeginRelease? :: a.n
  }

  /**
   In every run all nodes that know a leader, cached or freshly read, name the
   same one, unless one of them names a node that began to release in the run.
   While a node that did not release is ready to mutate, it is the one named.
   */
  lemma LeaderAgreement(c: Cluster, actions: seq<Action>, a: NodeID, b: NodeID)
    requires Initial(c) && 0 <= c.now && (c.stored.Held? ==> Bounded(c, c.stored.lease))
    requires a in Run(c, actions).nodes && b in Run(c, actions).nodes
    ensures
      var c', gone := Run(c, actions), Releasers(actions);
      var ra, rb := CurrentLeader(c'.nodes[a], c'.stored, c'.now), CurrentLeader(c'.nodes[b], c'.stored, c'.now);
      && (ra != NO_RECORD && rb != NO_RECORD ==> ra.node == rb.node || ra.node in gone || rb.node in gone)
      && (Ready(c'.nodes[a], a, c'.now) && a !in gone ==> rb.node == a || rb.node in gone)
  {
    hide Run;
    var gone := Releasers(actions);
    InitialCache(c, gone);
    RunKeepsCache(c, gone, actions);
    var c' := Run(c, actions);
    assert NodeCacheOk(c', gone, a) && NodeCacheOk(c', gone, b);
    UnixMonotone(0, c'.now);
  }

  lemma InitialCache(c: Cluster, released: set<NodeID>)
    requires Initial(c) && 0 <= c.now && (c.stored.Held? ==> Bounded(c, c.stored.lease))
    ensures CacheInv(c, released)
  {
    UnixMonotone(0, c.now);
  }

  /** The exception is real: after a release a cached record still names the old leader beside the new one. */
  lemma CacheOutlivesRelease(lease: nat) returns (c: Cluster, actions: seq<Action>)
    requires NANOS_PER_SECOND <= lease
    ensures Initial(c) && 0 <= c.now && c.stored == Absent
    ensures
      var c' := Run(c, actions);
      && "b" in c'.nodes && "c" in c'.nodes
      && CurrentLeader(c'.nodes["b"], c'.stored, c'.now).node == "a" && CurrentLeader(c'.nodes["c"], c'.stored, c'.now).node == "c"
  {
    hide Run;
    c := Cluster(0, Absent, map["a" := Fresh(lease), "b" := Fresh(lease), "c" := Fresh(lease)]);
    TakeLease(c, "a");
    var c1 := Run(c, Refresh("a"));
    SeeLease(c1, "b");
    var c2 := Run(c1, Refresh("b"));
    var c3 := Apply(c2, BeginRelease("a"));
    var c4 := Apply(c3, CommitRelease("a"));
    TakeLease(c4, "c");
    RunOne(c2, BeginRelease("a"));
    RunOne(c3, CommitRelease("a"));
    RunConcat(c3, [CommitRelease("a")], Refresh("c"));
    RunConcat(c2, [BeginRelease("a")], [CommitRelease("a")] + Refresh("c"));
    RunConcat(c1, Refresh("b"), [BeginRelease("a")] + ([CommitRelease("a")] + Refresh("c")));
    RunConcat(c, Refresh("a"), Refresh("b") + ([BeginRelease("a")] + ([CommitRelease("a")] + Refresh("c"))));
    actions := Refresh("a") + (Refresh("b") + ([BeginRelease("a")] + ([CommitRelease("a")] + Refresh("c"))));
  }

  /** A refresh with nothing in between, by a node that finds the lease of another one. */
  lemma SeeLease(c: Cluster, n: NodeID)
    requires n in c.nodes && c.nodes[n].phase.Idle?
    requires c.stored.Held? && c.stored.lease.node != n && c.stored.lease.expires > Unix(c.now)
    ensures Run(c, Refresh(n)) == Cluster(c.now, c.stored, c.nodes[n := Node(c.nodes[n].lease, c.stored.lease, false, false, Idle)])
  {
    hide Run, Unix;
    RefreshAlone(c, n);
  }

  // ------------------------------------------------------------- the manager object

  /** How a transaction ends: committed, lost without effect, or applied but reported as an error. */
  datatype TxOutcome = Committed | Lost | Ambiguous

  class LeaseKey {
    var value: Stored
  }

  class LeaderLeaseManager {
    const key: LeaseKey
    const nodeID: NodeID
    const lease: int
    var current: Record
    var isLeader: bool
    var failed: bool

    constructor (key: LeaseKey, nodeID: NodeID, lease: int)
      ensures this.key == key && this.nodeID == nodeID && this.lease == lease && AsNode() == Fresh(lease)
    {
      this.key, this.nodeID, this.lease := key, nodeID, lease;
      current, isLeader, failed := NO_RECORD, false, false;
    }

    /** The manager's fields as a node of the cluster between two refreshes. */
    function AsNode(): Node
      reads this
    {
      Node(lease, current, isLeader, failed, Idle)
    }

    method AcquireOrRenew(now: int, outcome: TxOutcome) returns (next: Record, leader: bool, err: bool)
      modifies key
      ensures var r := AcquireTx(old(key.value), nodeID, now, lease);
        && key.value == (if outcome == Lost then old(key.value) else r.stored)
        && next == r.next && leader == r.leader && err == (r.failed || outcome != Committed)
    {
      next, leader, err := NO_RECORD, false, outcome != Committed;
      match key.value {
        case Absent =>
          next, leader := Record(nodeID, Unix(now), Unix(now + lease)), true;
        case Corrupt =>
          err := true;
        case Held(held) =>
          if held.node == nodeID || held.expires <= Unix(now) {
            var acquired := held.acquired;
            if held.node != nodeID || acquired == 0 {
              acquired := Unix(now);
            }
            next, leader := Record(nodeID, acquired, Unix(now + lease)), true;
          } else {
            next := held;
          }
      }
      if leader && outcome != Lost {
        key.value := Held(next);
      }
    }

    /** One refresh with nothing in between is the begin, commit and install steps of the cluster. */
    method Refresh(now: int, outcome: TxOutcome)
      modifies this, key
      ensures
        var before := Cluster(now, old(key.value), map[nodeID := old(AsNode())]);
        var commit := if outcome == Committed then Commit(nodeID) else FailTx(nodeID, outcome == Ambiguous);
        Cluster(now, key.value, map[nodeID := AsNode()]) == Apply(Apply(Apply(before, BeginTx(nodeID)), commit), Install(nodeID))
    {
      var next, leader, err := AcquireOrRenew(now, outcome);
      current, failed, isLeader := next, err, leader && !err;
    }

    method Release(outcome: TxOutcome)
      modifies this, key
      ensures old(!failed && isLeader && current.node == nodeID) ==>
        var (stored, bad) := ReleaseTx(old(key.value), nodeID);
        && key.value == (if outcome == Lost then old(key.value) else stored)
        && AsNode() == (if outcome == Committed && !bad then Fresh(lease) else old(AsNode()))
      ensures !old(!failed && isLeader && current.node == nodeID) ==> key.value == old(key.value) && AsNode() == old(AsNode())
    {
      if failed || !isLeader || current.node != nodeID {
        return;
      }
      var err := outcome != Committed;
      match key.value {
        case Absent =>
        case Corrupt => err := true;
        case Held(held) =>
          if held.node == nodeID && outcome != Lost {
            key.value := Absent;
          }
      }
      if !err {
        current, failed := NO_RECORD, false;
        isLeader := false;
      }
    }

    method MutationReady(now: int) returns (ready: bool)
      ensures ready == Ready(AsNode(), nodeID, now)
    {
      if failed || !isLeader || current.node != nodeID {
        return false;
      }
      ready := !Expired(current, now);
    }

    /** The reported state is "leader" exactly when the node may mutate. */
    method State(now: int) returns (state: string)
      ensures state == "leader" <==> Ready(AsNode(), nodeID, now)
      ensures state == "unavailable" <==> failed
      ensures state == "standby" ==> !Expired(current, now) && (current.node != nodeID || !isLeader)
      ensures state in {"unavailable", "leader", "standby", "election"}
    {
      if failed {
        return "unavailable";
      }
      if isLeader && current.node == nodeID && !Expired(current, now) {
        return "leader";
      }
      if current.node != "" && !Expired(current, now) {
        return "standby";
      }
      state := "election";
    }
  }
}
