/** Write admission of an iSCSI export during failover (iscsi/control.go). */
module Failover {
  import opened Words
  import opened Text

  /** The fields of a runtime no admission writes. */
  datatype Identity = Identity(
    exportID: string, active: string, previousActive: string, leaseID: string, epoch: U64, trigger: string, completed: bool,
    revokedID: string)

  datatype Modes = Modes(
    writerPolicy: string, haMode: string, aluaMode: string, aluaImplicit: bool, aluaExplicit: bool,
    activeAccess: string, standbyAccess: string)

  /** The last write seen. */
  datatype LastWrite = LastWrite(gateway: string, epoch: U64, admitted: bool, reason: string, status: string, sense: string)

  datatype FailoverRuntime = FailoverRuntime(
    who: Identity, modes: Modes, state: string, standbys: seq<string>, staleRejected: bool, standbyRejected: bool,
    last: LastWrite, lastRejected: string)

  datatype Decision = Decision(
    gateway: string, active: string, observedEpoch: U64, epoch: U64, admitted: bool, stale: bool, standby: bool,
    reason: string, status: string, sense: string, writerPolicy: string, haMode: string)

  // ------------------------------------------------------------- removing an id

  function Without(s: seq<string>, id: string): seq<string>
    decreases |s|
  {
    if s == [] then []
    else Without(s[..|s| - 1], id) + (if s[|s| - 1] != id then [s[|s| - 1]] else [])
  }

  /** The source filters into the front of the same slice. */
  method FilterInPlace(a: array<string>, id: string) returns (n: nat)
    modifies a
    ensures n <= a.Length && a[..n] == Without(old(a[..]), id)
  {
    n := 0;
    for i := 0 to a.Length
      invariant n <= i && a[..n] == Without(old(a[..])[..i], id) && a[i..] == old(a[..])[i..]
    {
      assert old(a[..])[..i + 1][..i] == old(a[..])[..i];
      assert a[i] == a[i..][0] == old(a[..])[i];
      if a[i] != id {
        a[n] := a[i];
        n := n + 1;
      }
    }
    assert old(a[..])[..a.Length] == old(a[..]);
  }

  lemma {:induction false} WithoutMembers(s: seq<string>, id: string)
    ensures forall v :: v in Without(s, id) <==> v in s && v != id
    ensures id !in s ==> Without(s, id) == s
    decreases |s|
  {
    if s != [] {
      var before, last := s[..|s| - 1], s[|s| - 1];
      assert s == before + [last];
      WithoutMembers(before, id);
    }
  }

  lemma WithoutAppend(s: seq<string>, id: string, last: string)
    ensures Without(s + [last], id) == Without(s, id) + (if last != id then [last] else [])
  {
    assert (s + [last])[..|s|] == s;
  }

  // ------------------------------------------------------------- the runtime

  function Default(s: string, d: string): string {
    if s == "" then d else s
  }

  function NormalizeModes(m: Modes): Modes {
    var mode := Default(m.aluaMode, "implicit");
    Modes(Default(m.writerPolicy, "single_active_writer_session"), Default(m.haMode, "manual_promote_demote_first"), mode,
          m.aluaImplicit || mode == "implicit", m.aluaExplicit,
          Default(m.activeAccess, "active_optimized"), Default(m.standbyAccess, "standby"))
  }

  function NormalizeFailoverRuntime(rt: FailoverRuntime): FailoverRuntime {
    rt.(state := Default(rt.state, "none"), modes := NormalizeModes(rt.modes), standbys := Unique(rt.standbys))
  }

  lemma NormalizeIdempotent(rt: FailoverRuntime)
    ensures NormalizeFailoverRuntime(NormalizeFailoverRuntime(rt)) == NormalizeFailoverRuntime(rt)
  {
    hide Unique;
    UniqueTwice(rt.standbys);
  }

  /** Every mode ends up set, what was set is kept, and implicit ALUA is marked as supported. */
  lemma NormalizeFills(rt: FailoverRuntime)
    ensures
      var m, n := rt.modes, NormalizeFailoverRuntime(rt).modes;
      && "" !in {n.writerPolicy, n.haMode, n.aluaMode, n.activeAccess, n.standbyAccess, NormalizeFailoverRuntime(rt).state}
      && (m.writerPolicy in {"", n.writerPolicy} && m.haMode in {"", n.haMode} && m.aluaMode in {"", n.aluaMode})
      && (m.activeAccess in {"", n.activeAccess} && m.standbyAccess in {"", n.standbyAccess})
      && (n.aluaImplicit <==> m.aluaImplicit || n.aluaMode == "implicit") && n.aluaExplicit == m.aluaExplicit
  {
    hide Unique;
  }

  function AddStandbyGatewayID(rt: FailoverRuntime, gateway: string): FailoverRuntime {
    var g, n := Trim(gateway), NormalizeFailoverRuntime(rt);
    if g == "" || g == n.who.active then n
    else n.(standbys := Unique(n.standbys + [g]), state := if n.state == "none" then "standby_registered" else n.state)
  }

  function RemoveStandbyGatewayID(rt: FailoverRuntime, gateway: string): FailoverRuntime {
    var g, n := Trim(gateway), NormalizeFailoverRuntime(rt);
    if g == "" then n else n.(standbys := Without(n.standbys, g))
  }

  lemma AddedStandbys(rt: FailoverRuntime, gateway: string)
    ensures
      var g, s := Trim(gateway), Unique(rt.standbys);
      && AddStandbyGatewayID(rt, gateway).standbys == (if g == "" || g == rt.who.active then s else AddOnce(s, g))
      && Clean(AddStandbyGatewayID(rt, gateway).standbys)
  {
    hide Unique, Clean, Trimmed, Trim, AddOnce;
    UniqueTwice(rt.standbys);
    if Trim(gateway) != "" {
      UniqueAppend(Unique(rt.standbys), Trim(gateway));
    }
  }

  /** Removing undoes adding, up to the white space and repetitions the runtime started with. */
  lemma RemoveUndoesAdd(rt: FailoverRuntime, gateway: string)
    ensures
      RemoveStandbyGatewayID(AddStandbyGatewayID(rt, gateway), gateway).standbys == RemoveStandbyGatewayID(rt, gateway).standbys
    ensures Trim(gateway) !in Unique(rt.standbys) ==>
      RemoveStandbyGatewayID(AddStandbyGatewayID(rt, gateway), gateway).standbys == Unique(rt.standbys)
  {
    hide Unique, Clean, Trimmed, Trim, AddStandbyGatewayID, Without;
    var g, s := Trim(gateway), Unique(rt.standbys);
    AddedStandbys(rt, gateway);
    UniqueOfClean(AddStandbyGatewayID(rt, gateway).standbys);
    WithoutMembers(s, g);
    WithoutAppend(s, g, g);
  }

  // ------------------------------------------------------------- admission

  function Reject(rt: FailoverRuntime, d: Decision, reason: string, stale: bool, standby: bool): (FailoverRuntime, Decision) {
    (rt.(staleRejected := rt.staleRejected || stale, standbyRejected := rt.standbyRejected || standby,
         lastRejected := d.gateway,
         last := LastWrite(d.gateway, d.observedEpoch, false, reason, "check_condition", "data_protect")),
     d.(admitted := false, stale := stale, standby := standby, reason := reason, status := "check_condition", sense := "data_protect"))
  }

  function EvaluateFailoverWriteAdmission(runtime: FailoverRuntime, gateway: string, observed: U64): (FailoverRuntime, Decision) {
    var r := Settle(NormalizeFailoverRuntime(runtime), Trim(gateway), observed);
    (NormalizeFailoverRuntime(r.0), r.1)
  }

  /** The decision on a normalised runtime and a trimmed gateway id. */
  function Settle(rt: FailoverRuntime, g: string, observed: U64): (FailoverRuntime, Decision) {
    var who := rt.who;
    var d := Decision(g, who.active, observed, who.epoch, false, false, false, "", "good", "", rt.modes.writerPolicy, rt.modes.haMode);
    if g == "" then Reject(rt, d, "missing_gateway_id", false, false)
    else if who.revokedID != "" && who.revokedID == g then Reject(rt, d, "revoked_stale_gateway", true, false)
    else if who.active == "" then Reject(rt, d, "no_active_gateway", false, false)
    else if observed != who.epoch then Reject(rt, d, "stale_export_epoch", true, false)
    else if g != who.active then Reject(AddStandbyGatewayID(rt, g), d, "standby_gateway", false, true)
    else (rt.(last := LastWrite(g, observed, true, "", "good", "")), d.(admitted := true))
  }

  /** The one gateway and epoch that may write. */
  predicate MayWrite(rt: FailoverRuntime, gateway: string, observed: U64) {
    Trim(gateway) != "" && Trim(gateway) == rt.who.active && observed == rt.who.epoch && Trim(gateway) != rt.who.revokedID
  }

  datatype Request = Request(gateway: string, epoch: U64)

  /** The runtime after a run of requests. */
  function After(rt: FailoverRuntime, requests: seq<Request>): FailoverRuntime
    decreases |requests|
  {
    if requests == [] then rt
    else
      var n := |requests| - 1;
      EvaluateFailoverWriteAdmission(After(rt, requests[..n]), requests[n].gateway, requests[n].epoch).0
  }

  /** What the i-th request of a run is told. */
  function Answer(rt: FailoverRuntime, requests: seq<Request>, i: nat): Decision
    requires i < |requests|
  {
    EvaluateFailoverWriteAdmission(After(rt, requests[..i]), requests[i].gateway, requests[i].epoch).1
  }

  /** A decision as the initiator sees it: good status exactly for an admitted write, a reason and sense otherwise. */
  predicate Coherent(d: Decision) {
    && (d.admitted <==> d.status == "good") && (d.admitted <==> d.reason == "") && (d.admitted <==> d.sense == "")
    && (d.admitted ==> !d.stale && !d.standby) && !(d.stale && d.standby)
  }

  /** What no request can change, and what can only be raised. */
  ghost predicate Advances(a: FailoverRuntime, b: FailoverRuntime) {
    && b.who == a.who
    && (a.staleRejected ==> b.staleRejected) && (a.standbyRejected ==> b.standbyRejected)
  }

  /** How the standby list grows: what was there stays in place, and the active gateway never joins. */
  ghost predicate Grows(a: FailoverRuntime, b: FailoverRuntime) {
    && Unique(a.standbys) <= b.standbys && Clean(b.standbys)
    && (a.who.active in b.standbys ==> a.who.active in Unique(a.standbys))
  }

  lemma NormalizeAdvances(rt: FailoverRuntime)
    ensures
      var n := NormalizeFailoverRuntime(rt);
      Advances(rt, n) && Advances(n, rt) && n.standbys == Unique(rt.standbys)
  {
    hide Unique;
  }

  lemma AddStandbyAdvances(rt: FailoverRuntime, gateway: string)
    ensures Advances(rt, AddStandbyGatewayID(rt, gateway))
  {
    hide Unique, Trim;
  }

  lemma SettleDecides(rt: FailoverRuntime, g: string, observed: U64)
    ensures
      var r := Settle(rt, g, observed);
      && (r.1.admitted <==> g != "" && g == rt.who.active && observed == rt.who.epoch && g != rt.who.revokedID)
      && Coherent(r.1) && Advances(rt, r.0)
      && (r.1.stale ==> r.0.staleRejected) && (r.1.standby ==> r.0.standbyRejected && g != "" && g != rt.who.active)
  {
    hide Unique, Trim, NormalizeFailoverRuntime, AddStandbyGatewayID;
    AddStandbyAdvances(rt, g);
  }

  /** The reasons exclude each other: which one is given, and which flag it raises, in terms of the request alone. */
  lemma RejectionReasons(rt: FailoverRuntime, gateway: string, observed: U64)
    ensures
      var g, who, d := Trim(gateway), rt.who, EvaluateFailoverWriteAdmission(rt, gateway, observed).1;
      && (d.reason == "missing_gateway_id" <==> g == "")
      && (d.reason == "revoked_stale_gateway" <==> g == who.revokedID != "")
      && (d.reason == "no_active_gateway" <==> g !in {"", who.revokedID} && who.active == "")
      && (d.reason == "stale_export_epoch" <==> g !in {"", who.revokedID} && who.active != "" && observed != who.epoch)
      && (d.reason == "standby_gateway" <==> g !in {"", who.revokedID, who.active} && who.active != "" && observed == who.epoch)
      && (d.stale <==> d.reason in {"revoked_stale_gateway", "stale_export_epoch"}) && (d.standby <==> d.reason == "standby_gateway")
  {
    hide Unique, Trim, NormalizeFailoverRuntime, AddStandbyGatewayID;
    NormalizeAdvances(rt);
  }

  /** One request. */
  lemma EvaluateDecides(rt: FailoverRuntime, gateway: string, observed: U64)
    ensures
      var r := EvaluateFailoverWriteAdmission(rt, gateway, observed);
      && (r.1.admitted <==> MayWrite(rt, gateway, observed)) && Coherent(r.1) && Advances(rt, r.0)
      && (r.1.stale ==> r.0.staleRejected) && (r.1.standby ==> r.0.standbyRejected)
      && (r.1.standby ==> Trim(gateway) != "" && Trim(gateway) != rt.who.active)
  {
    hide Unique, Trim, NormalizeFailoverRuntime, AddStandbyGatewayID, Settle, Coherent;
    var n := NormalizeFailoverRuntime(rt);
    NormalizeAdvances(rt);
    SettleDecides(n, Trim(gateway), observed);
    NormalizeAdvances(Settle(n, Trim(gateway), observed).0);
  }

  lemma EvaluateStandbys(rt: FailoverRuntime, gateway: string, observed: U64)
    ensures
      var r := EvaluateFailoverWriteAdmission(rt, gateway, observed);
      r.0.standbys == (if r.1.standby then AddOnce(Unique(rt.standbys), Trim(gateway)) else Unique(rt.standbys)) && Clean(r.0.standbys)
  {
    hide Unique, Trim, Clean, NormalizeFailoverRuntime, AddStandbyGatewayID, AddOnce;
    var n, g := NormalizeFailoverRuntime(rt), Trim(gateway);
    NormalizeAdvances(rt);
    UniqueTwice(rt.standbys);
    AddedStandbys(n, g);
    UniqueOfClean(AddStandbyGatewayID(n, g).standbys);
    NormalizeAdvances(Settle(n, g, observed).0);
  }

  lemma AddOnceGrows(a: FailoverRuntime, b: FailoverRuntime, g: string)
    requires b.standbys == Unique(a.standbys) || (b.standbys == AddOnce(Unique(a.standbys), g) && g != a.who.active)
    requires Clean(b.standbys)
    ensures Grows(a, b)
  {
    hide Unique, Clean;
  }

  lemma {:induction false} AfterAdvances(rt: FailoverRuntime, requests: seq<Request>)
    ensures Advances(rt, After(rt, requests)) && (requests != [] ==> Grows(rt, After(rt, requests)))
    decreases |requests|
  {
    hide EvaluateFailoverWriteAdmission, Clean, Unique, AddOnce, MayWrite;
    if requests != [] {
      var n := |requests| - 1;
      var before, req := After(rt, requests[..n]), requests[n];
      AfterAdvances(rt, requests[..n]);
      EvaluateDecides(before, req.gateway, req.epoch);
      EvaluateStandbys(before, req.gateway, req.epoch);
      AddOnceGrows(before, After(rt, requests), Trim(req.gateway));
      if n > 0 {
        UniqueOfClean(before.standbys);
      }
    }
  }

  lemma {:induction false} AfterConcat(rt: FailoverRuntime, a: seq<Request>, b: seq<Request>)
    ensures After(rt, a + b) == After(After(rt, a), b)
    decreases |b|
  {
    hide EvaluateFailoverWriteAdmission;
    if b == [] {
      assert a + b == a;
    } else {
      assert (a + b)[..|a + b| - 1] == a + b[..|b| - 1];
      AfterConcat(rt, a, b[..|b| - 1]);
    }
  }

  /**
   For every run of requests by any gateways at any epochs: a write is admitted
   exactly when it comes from the active, unrevoked gateway at the export's
   epoch; active gateway, epoch and revocation stay; and what a rejection
   records is never lost.
   */
  lemma AdmissionSafety(rt: FailoverRuntime, requests: seq<Request>, i: nat)
    requires i < |requests|
    ensures
      var d, end := Answer(rt, requests, i), After(rt, requests);
      && (d.admitted <==> MayWrite(rt, requests[i].gateway, requests[i].epoch)) && Coherent(d)
      && Advances(rt, end) && Grows(rt, end)
      && (d.stale ==> end.staleRejected)
      && (d.standby ==> end.standbyRejected && Trim(requests[i].gateway) in end.standbys)
  {
    hide EvaluateFailoverWriteAdmission, Clean, Unique, Coherent;
    var req, before, after := requests[i], After(rt, requests[..i]), After(rt, requests[..i + 1]);
    AfterAdvances(rt, requests);
    AfterAdvances(rt, requests[..i]);
    assert requests[..i + 1][..i] == requests[..i];
    EvaluateDecides(before, req.gateway, req.epoch);
    EvaluateStandbys(before, req.gateway, req.epoch);
    UniqueOfClean(after.standbys);
    assert requests == requests[..i + 1] + requests[i + 1..];
    AfterConcat(rt, requests[..i + 1], requests[i + 1..]);
    AfterAdvances(after, requests[i + 1..]);
  }

  /** Single writer: all writes admitted in one run come from one gateway at one epoch. */
  lemma OneWriter(rt: FailoverRuntime, requests: seq<Request>, i: nat, j: nat)
    requires i < |requests| && j < |requests|
    requires Answer(rt, requests, i).admitted && Answer(rt, requests, j).admitted
    ensures Trim(requests[i].gateway) == Trim(requests[j].gateway) == rt.who.active && requests[i].epoch == requests[j].epoch == rt.who.epoch
  {
    hide EvaluateFailoverWriteAdmission, Clean, Unique, Coherent, Answer, After, Advances, Grows;
    AdmissionSafety(rt, requests, i);
    AdmissionSafety(rt, requests, j);
  }

  /** The gateways of a run that were turned away as standby, in order. */
  function TurnedAway(rt: FailoverRuntime, requests: seq<Request>): seq<string>
    decreases |requests|
  {
    if requests == [] then []
    else
      var n := |requests| - 1;
      TurnedAway(rt, requests[..n]) + (if Answer(rt, requests, n).standby then [Trim(requests[n].gateway)] else [])
  }

  /** The standby list after a run: the one before it and every gateway turned away as standby, once each. */
  lemma {:induction false} StandbysAfter(rt: FailoverRuntime, requests: seq<Request>)
    ensures Unique(After(rt, requests).standbys) == Unique(rt.standbys + TurnedAway(rt, requests))
    decreases |requests|
  {
    hide EvaluateFailoverWriteAdmission, Clean, Unique, Trim, Trimmed, AddOnce, Coherent, MayWrite, Advances;
    if requests == [] {
      assert rt.standbys + [] == rt.standbys;
    } else {
      var n := |requests| - 1;
      var before, req := After(rt, requests[..n]), requests[n];
      StandbysAfter(rt, requests[..n]);
      EvaluateDecides(before, req.gateway, req.epoch);
      EvaluateStandbys(before, req.gateway, req.epoch);
      UniqueOfClean(After(rt, requests).standbys);
      var known := rt.standbys + TurnedAway(rt, requests[..n]);
      if Answer(rt, requests, n).standby {
        assert rt.standbys + TurnedAway(rt, requests) == known + [Trim(req.gateway)];
        UniqueAppend(known, Trim(req.gateway));
      } else {
        assert rt.standbys + TurnedAway(rt, requests) == known;
      }
    }
  }
}
