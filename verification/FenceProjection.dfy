/**
 Projecting a writer fence to every registered receiver (cmd/sbs-service/main_iscsi_fencing.go):
 one goroutine per endpoint, a semaphore, an error list behind a mutex and a wait group.
 */
module FenceProjection {
  import opened Words
  import opened Text

  const CONCURRENCY: nat := 16

  datatype Fence = Fence(volumeID: string, exportID: string, leaseID: string, epoch: U64, gatewayID: string, revision: U64)

  // ------------------------------------------------------------- endpoints

  datatype Node = Node(removed: bool, endpoints: seq<(string, nat)>)

  function Decimal(n: nat): string {
    (if n >= 10 then Decimal(n / 10) else "") + [(n % 10 + '0' as int) as char]
  }

  function EndpointString(endpoints: seq<(string, nat)>): string {
    if endpoints == [] then "" else endpoints[0].0 + ":" + Decimal(endpoints[0].1)
  }

  /** The endpoint strings of the members not removed. */
  function Registered(nodes: seq<Node>): seq<string>
    decreases |nodes|
  {
    if nodes == [] then []
    else
      var last := nodes[|nodes| - 1];
      Registered(nodes[..|nodes| - 1]) + (if last.removed then [] else [EndpointString(last.endpoints)])
  }

  /** The source's loop; it sorts the result afterwards, which only orders the goroutines. */
  method CollectEndpoints(nodes: seq<Node>) returns (endpoints: seq<string>)
    ensures endpoints == Unique(Registered(nodes))
  {
    hide EndpointString, Trim;
    var seen: set<string> := {};
    endpoints := [];
    for i := 0 to |nodes|
      invariant endpoints == Unique(Registered(nodes[..i])) && seen == (set e | e in endpoints)
    {
      assert nodes[..i + 1][..i] == nodes[..i];
      if nodes[i].removed {
        assert Registered(nodes[..i]) + [] == Registered(nodes[..i]);
        continue;
      }
      var raw := EndpointString(nodes[i].endpoints);
      assert (Registered(nodes[..i]) + [raw])[..|Registered(nodes[..i])|] == Registered(nodes[..i]);
      var endpoint := Trim(raw);
      if endpoint == "" || endpoint in seen {
        continue;
      }
      seen := seen + {endpoint};
      endpoints := endpoints + [endpoint];
    }
    assert nodes[..|nodes|] == nodes;
  }

  lemma {:induction false} RegisteredMembers(nodes: seq<Node>, s: string)
    ensures s in Registered(nodes) <==> exists n :: n in nodes && !n.removed && EndpointString(n.endpoints) == s
    decreases |nodes|
  {
    hide EndpointString;
    if nodes != [] {
      var before, last := nodes[..|nodes| - 1], nodes[|nodes| - 1];
      assert nodes == before + [last];
      RegisteredMembers(before, s);
    }
  }

  // ------------------------------------------------------------- the goroutines

  /** A client or transport error, or an acknowledgement that may carry no fence. */
  datatype Reply = CallFailed | Nothing | Acknowledged(fence: Fence)

  datatype Phase =
    | Waiting      // in the select
    | Cancelled    // the context ended first; about to record it
    | Calling      // holds the semaphore, call in flight
    | Erring       // holds the semaphore, about to record an error
    | Releasing    // holds the semaphore, deferred release next
    | Leaving      // deferred wg.Done next
    | Finished

  /** `replies` is the history: what each receiver answered. */
  datatype World = World(semaphore: nat, errors: seq<nat>, workers: seq<Phase>, replies: map<nat, Reply>)

  datatype Step = ContextDone | Acquire | Answer(reply: Reply) | Record | Release | Done

  function Start(n: nat): World {
    World(0, [], seq(n, _ => Waiting), map[])
  }

  /** One step of goroutine `t`; a step that is not enabled does nothing. */
  function Apply(w: World, fence: Fence, t: nat, step: Step): World
    requires t < |w.workers|
  {
    match (step, w.workers[t])
    case (ContextDone, Waiting) => w.(workers := w.workers[t := Cancelled])
    case (Acquire, Waiting) =>
      if w.semaphore < CONCURRENCY then w.(semaphore := w.semaphore + 1, workers := w.workers[t := Calling]) else w
    case (Answer(reply), Calling) =>
      w.(workers := w.workers[t := if reply == Acknowledged(fence) then Releasing else Erring], replies := w.replies[t := reply])
    case (Record, Cancelled) => w.(errors := w.errors + [t], workers := w.workers[t := Leaving])
    case (Record, Erring) => w.(errors := w.errors + [t], workers := w.workers[t := Releasing])
    case (Release, Releasing) =>
      w.(semaphore := if w.semaphore > 0 then w.semaphore - 1 else 0, workers := w.workers[t := Leaving])
    case (Done, Leaving) => w.(workers := w.workers[t := Finished])
    case _ => w
  }

  function Run(fence: Fence, n: nat, script: seq<(nat, Step)>): World
    decreases |script|
  {
    if script == [] then Start(n)
    else
      var before := Run(fence, n, script[..|script| - 1]);
      var (t, step) := script[|script| - 1];
      if t < |before.workers| then Apply(before, fence, t, step) else before
  }

  predicate Holds(p: Phase) {
    p.Calling? || p.Erring? || p.Releasing?
  }

  function Holders(workers: seq<Phase>): nat {
    if workers == [] then 0 else (if Holds(workers[0]) then 1 else 0) + Holders(workers[1..])
  }

  function InFlight(workers: seq<Phase>): nat {
    if workers == [] then 0 else (if workers[0].Calling? then 1 else 0) + InFlight(workers[1..])
  }

  predicate Acked(w: World, fence: Fence, t: nat) {
    t in w.replies && w.replies[t] == Acknowledged(fence)
  }

  /** Where each goroutine stands on having been acknowledged and on being in the error list. */
  ghost predicate Settled(w: World, fence: Fence, t: nat)
    requires t < |w.workers|
  {
    match w.workers[t]
    case Waiting => t !in w.replies && t !in w.errors
    case Cancelled => t !in w.replies && t !in w.errors
    case Calling => t !in w.replies && t !in w.errors
    case Erring => !Acked(w, fence, t) && t !in w.errors
    case _ => Acked(w, fence, t) <==> t !in w.errors
  }

  ghost predicate Inv(w: World, fence: Fence, n: nat) {
    && |w.workers| == n && w.semaphore == Holders(w.workers) <= CONCURRENCY
    && (forall t :: 0 <= t < n ==> Settled(w, fence, t))
    && (forall e :: e in w.errors ==> e < n)
  }

  lemma {:induction false} HoldersUpdate(workers: seq<Phase>, t: nat, p: Phase)
    requires t < |workers|
    ensures Holders(workers[t := p]) == Holders(workers) - (if Holds(workers[t]) then 1 else 0) + (if Holds(p) then 1 else 0)
    decreases |workers|
  {
    var after := workers[t := p];
    if t == 0 {
      assert after[1..] == workers[1..];
    } else {
      assert after[1..] == workers[1..][t - 1 := p];
      HoldersUpdate(workers[1..], t - 1, p);
    }
  }

  lemma {:induction false} InFlightHolds(workers: seq<Phase>)
    ensures InFlight(workers) <= Holders(workers)
    decreases |workers|
  {
    if workers != [] {
      InFlightHolds(workers[1..]);
    }
  }

  lemma {:induction false} SomeHolder(workers: seq<Phase>) returns (t: nat)
    requires Holders(workers) > 0
    ensures t < |workers| && Holds(workers[t])
    decreases |workers|
  {
    if Holds(workers[0]) {
      t := 0;
    } else {
      t := SomeHolder(workers[1..]);
      t := t + 1;
    }
  }

  lemma {:induction false} NoHolders(n: nat)
    ensures Holders(seq(n, _ => Waiting)) == 0
    decreases n
  {
    if n > 0 {
      assert seq(n, _ => Waiting)[1..] == seq(n - 1, _ => Waiting);
      NoHolders(n - 1);
    }
  }

  lemma StepKeepsInv(w: World, fence: Fence, n: nat, t: nat, step: Step)
    requires Inv(w, fence, n) && t < n
    ensures Inv(Apply(w, fence, t, step), fence, n)
  {
    var w' := Apply(w, fence, t, step);
    assert w'.workers == w.workers[t := w'.workers[t]];
    HoldersUpdate(w.workers, t, w'.workers[t]);
    assert Settled(w, fence, t);
    forall u | 0 <= u < n
      ensures Settled(w', fence, u)
    {
      assert Settled(w, fence, u);
    }
  }

  lemma {:induction false} RunKeepsInv(fence: Fence, n: nat, script: seq<(nat, Step)>)
    ensures Inv(Run(fence, n, script), fence, n)
    decreases |script|
  {
    hide Apply;
    if script == [] {
      NoHolders(n);
    } else {
      RunKeepsInv(fence, n, script[..|script| - 1]);
      var (t, step) := script[|script| - 1];
      if t < n {
        StepKeepsInv(Run(fence, n, script[..|script| - 1]), fence, n, t, step);
      }
    }
  }

  /** In every interleaving at most sixteen calls are in flight. */
  lemma BoundedConcurrency(fence: Fence, n: nat, script: seq<(nat, Step)>)
    ensures InFlight(Run(fence, n, script).workers) <= CONCURRENCY
  {
    RunKeepsInv(fence, n, script);
    InFlightHolds(Run(fence, n, script).workers);
  }

  /** No interleaving gets stuck: until all goroutines are finished, one of them has a step that moves it. */
  lemma NoDeadlock(fence: Fence, n: nat, script: seq<(nat, Step)>, reply: Reply) returns (t: nat, step: Step)
    requires exists p :: p in Run(fence, n, script).workers && !p.Finished?
    ensures t < |Run(fence, n, script).workers| == n
    ensures Apply(Run(fence, n, script), fence, t, step).workers[t] != Run(fence, n, script).workers[t]
  {
    RunKeepsInv(fence, n, script);
    var w := Run(fence, n, script);
    var p :| p in w.workers && !p.Finished?;
    t :| 0 <= t < n && w.workers[t] == p;
    if w.workers[t].Waiting? && w.semaphore == CONCURRENCY {
      t := SomeHolder(w.workers);
    }
    step := match w.workers[t]
      case Waiting => Acquire
      case Calling => Answer(reply)
      case Releasing => Release
      case Leaving => Done
      case _ => Record;
  }

  /**
   The wait group is down to zero: success is reported exactly when every
   distinct endpoint of every member that is not removed and has one answered
   with exactly this fence, whatever the interleaving, cancellation included.
   */
  lemma ProjectionExact(fence: Fence, nodes: seq<Node>, script: seq<(nat, Step)>)
    requires
      var w := Run(fence, |Unique(Registered(nodes))|, script);
      forall p :: p in w.workers ==> p.Finished?
    ensures
      var endpoints := Unique(Registered(nodes));
      var w := Run(fence, |endpoints|, script);
      w.errors == [] <==>
        forall node :: node in nodes && !node.removed && Trim(EndpointString(node.endpoints)) != "" ==>
          AckedBy(w, fence, endpoints, Trim(EndpointString(node.endpoints)))
  {
    hide EndpointString, Trim, Unique, Run, Registered;
    var endpoints := Unique(Registered(nodes));
    var w := Run(fence, |endpoints|, script);
    RunKeepsInv(fence, |endpoints|, script);
    FinishedMeansAcked(w, fence, |endpoints|);
    if w.errors == [] {
      forall node | node in nodes && !node.removed && Trim(EndpointString(node.endpoints)) != ""
        ensures AckedBy(w, fence, endpoints, Trim(EndpointString(node.endpoints)))
      {
        var s := EndpointString(node.endpoints);
        RegisteredMembers(nodes, s);
        UniqueMembers(Registered(nodes), Trim(s));
        var t :| 0 <= t < |endpoints| && endpoints[t] == Trim(s);
        assert Acked(w, fence, t);
      }
    } else if forall node :: node in nodes && !node.removed && Trim(EndpointString(node.endpoints)) != "" ==>
                AckedBy(w, fence, endpoints, Trim(EndpointString(node.endpoints)))
    {
      forall t | 0 <= t < |endpoints|
        ensures Acked(w, fence, t)
      {
        var node := NodeOf(nodes, t);
        var u :| 0 <= u < |endpoints| && endpoints[u] == endpoints[t] && Acked(w, fence, u);
        OncePerEndpoint(nodes, t, u);
      }
      assert false;
    }
  }

  /** A member that is not removed and has an endpoint. */
  predicate Receiver(node: Node) {
    !node.removed && Trim(EndpointString(node.endpoints)) != ""
  }

  /** The call reports success exactly when there is a receiver and every receiver answered with exactly this fence. */
  lemma SucceedsIff(fence: Fence, nodes: seq<Node>, script: seq<(nat, Step)>)
    requires
      var w := Run(fence, |Unique(Registered(nodes))|, script);
      forall p :: p in w.workers ==> p.Finished?
    ensures
      var endpoints := Unique(Registered(nodes));
      var w := Run(fence, |endpoints|, script);
      endpoints != [] && w.errors == [] <==>
        && (exists node :: node in nodes && Receiver(node))
        && (forall node :: node in nodes && Receiver(node) ==> AckedBy(w, fence, endpoints, Trim(EndpointString(node.endpoints))))
  {
    hide EndpointString, Trim, Unique, Run, Registered, AckedBy;
    ProjectionExact(fence, nodes, script);
    NoReceivers(nodes);
  }

  /** The goroutine of this endpoint was answered with exactly this fence. */
  ghost predicate AckedBy(w: World, fence: Fence, endpoints: seq<string>, endpoint: string) {
    exists t :: 0 <= t < |endpoints| && endpoints[t] == endpoint && Acked(w, fence, t)
  }

  lemma FinishedMeansAcked(w: World, fence: Fence, n: nat)
    requires Inv(w, fence, n) && forall p :: p in w.workers ==> p.Finished?
    ensures w.errors == [] <==> forall t :: 0 <= t < n ==> Acked(w, fence, t)
  {
    forall t | 0 <= t < n
      ensures Acked(w, fence, t) <==> t !in w.errors
    {
      assert w.workers[t] in w.workers && Settled(w, fence, t);
    }
    if w.errors != [] {
      assert w.errors[0] in w.errors;
    }
  }

  lemma NodeOf(nodes: seq<Node>, t: nat) returns (node: Node)
    requires t < |Unique(Registered(nodes))|
    ensures node in nodes && !node.removed && Trim(EndpointString(node.endpoints)) == Unique(Registered(nodes))[t] != ""
  {
    hide EndpointString, Trim, Unique, Registered;
    var e := Unique(Registered(nodes))[t];
    UniqueMembers(Registered(nodes), e);
    var s :| s in Registered(nodes) && Trim(s) == e;
    RegisteredMembers(nodes, s);
    node :| node in nodes && !node.removed && EndpointString(node.endpoints) == s;
  }

  /** The early error of the source: there is nobody to project to exactly when no remaining member has an endpoint. */
  lemma NoReceivers(nodes: seq<Node>)
    ensures Unique(Registered(nodes)) == [] <==>
      forall node :: node in nodes && !node.removed ==> Trim(EndpointString(node.endpoints)) == ""
  {
    hide EndpointString, Trim, Unique, Registered;
    if Unique(Registered(nodes)) != [] {
      var node := NodeOf(nodes, 0);
    } else {
      forall node | node in nodes && !node.removed
        ensures Trim(EndpointString(node.endpoints)) == ""
      {
        RegisteredMembers(nodes, EndpointString(node.endpoints));
        UniqueMembers(Registered(nodes), Trim(EndpointString(node.endpoints)));
      }
    }
  }

  lemma OncePerEndpoint(nodes: seq<Node>, t: nat, u: nat)
    requires t < |Unique(Registered(nodes))| && u < |Unique(Registered(nodes))|
    requires Unique(Registered(nodes))[t] == Unique(Registered(nodes))[u]
    ensures t == u
  {
    hide Unique, Trimmed, Registered;
    UniqueClean(Registered(nodes));
  }
}
