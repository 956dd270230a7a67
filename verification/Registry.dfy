/**
 The iSCSI export registry as the live reloader sees it (iscsi/live_reload.go):
 export states, the change log, paged responses, and what the log means.
 */
module Registry {
  import opened Words
  import opened Text

  /** Standby ids are a multiset: the source sorts them on normalisation and only ever searches them. */
  datatype ExportState = ExportState(
    exportID: string, volumeID: string, targetIQN: string, lunID: U64, lunWWN: string, enabled: bool,
    activeGatewayID: string, standbys: multiset<string>, leaseID: string, epoch: U64,
    readWriteAllowed: bool, writeAdmission: string)

  predicate AssignedTo(e: ExportState, gateway: string) {
    var gw := Trim(gateway);
    && gw != "" && e.enabled
    && (Trim(e.activeGatewayID) == gw || exists s :: s in e.standbys && Trim(s) == gw)
  }

  function Normalize(e: ExportState): ExportState {
    e.(exportID := Trim(e.exportID), volumeID := Trim(e.volumeID), targetIQN := Trim(e.targetIQN),
       lunWWN := Trim(e.lunWWN), activeGatewayID := Trim(e.activeGatewayID), leaseID := Trim(e.leaseID),
       writeAdmission := Trim(e.writeAdmission))
  }

  datatype Change = Change(revision: U64, generation: U64, operation: string, exportID: string, view: Option<ExportState>)

  /** The export a change is about; empty when it names none. */
  function Key(c: Change): string {
    var id := Trim(c.exportID);
    if id == "" && c.view.Some? then Trim(c.view.value.exportID) else id
  }

  // ------------------------------------------------------------- what a log means

  type Exports = map<string, ExportState>

  /** A change the registry can have written. */
  predicate WellFormed(c: Change) {
    && Key(c) != "" && c.operation in {"upsert", "delete"}
    && (c.operation == "upsert" ==> c.view.Some? && Normalize(c.view.value).exportID == Key(c))
  }

  function ApplyChange(reg: Exports, c: Change): Exports {
    if c.operation == "upsert" && c.view.Some? then reg[Key(c) := Normalize(c.view.value)] else reg - {Key(c)}
  }

  function Replay(reg: Exports, changes: seq<Change>): Exports
    decreases |changes|
  {
    if changes == [] then reg
    else ApplyChange(Replay(reg, changes[..|changes| - 1]), changes[|changes| - 1])
  }

  predicate Ordered(log: seq<Change>) {
    && (forall i :: 0 <= i < |log| ==> log[i].revision > 0)
    && (forall i, j :: 0 <= i < j < |log| ==> log[i].revision <= log[j].revision)
  }

  predicate ValidLog(log: seq<Change>) {
    Ordered(log) && forall c :: c in log ==> WellFormed(c)
  }

  /** The log entries with a revision in (lo, hi], in order. */
  function Between(log: seq<Change>, lo: int, hi: int): seq<Change>
    decreases |log|
  {
    if log == [] then []
    else
      var c := log[|log| - 1];
      Between(log[..|log| - 1], lo, hi) + (if lo < c.revision <= hi then [c] else [])
  }

  /** The registry at a revision. */
  function At(log: seq<Change>, revision: int): Exports {
    Replay(map[], Between(log, 0, revision))
  }

  /** The part of a registry this gateway serves. */
  function Served(reg: Exports, gateway: string): Exports {
    map id | id in reg && AssignedTo(reg[id], gateway) :: reg[id]
  }

  lemma {:induction false} ReplayConcat(reg: Exports, a: seq<Change>, b: seq<Change>)
    ensures Replay(reg, a + b) == Replay(Replay(reg, a), b)
    decreases |b|
  {
    if b == [] {
      assert a + b == a;
    } else {
      assert (a + b)[..|a + b| - 1] == a + b[..|b| - 1];
      ReplayConcat(reg, a, b[..|b| - 1]);
    }
  }

  /** In a revision-ordered log the entries up to `hi` are those up to `lo` followed by those in between. */
  lemma {:induction false} BetweenSplits(log: seq<Change>, lo: int, hi: int)
    requires Ordered(log) && 0 <= lo <= hi
    ensures Between(log, 0, hi) == Between(log, 0, lo) + Between(log, lo, hi)
    decreases |log|
  {
    if log != [] {
      var c, before := log[|log| - 1], log[..|log| - 1];
      BetweenSplits(before, lo, hi);
      if c.revision <= lo {
        NothingAfter(before, lo, hi, c.revision);
      }
    }
  }

  lemma {:induction false} NothingAfter(log: seq<Change>, lo: int, hi: int, top: int)
    requires (forall i :: 0 <= i < |log| ==> log[i].revision <= top) && top <= lo
    ensures Between(log, lo, hi) == []
    decreases |log|
  {
    if log != [] {
      NothingAfter(log[..|log| - 1], lo, hi, top);
    }
  }

  /** Catching up from one revision to a later one is replaying the entries in between. */
  lemma AtAdvances(log: seq<Change>, lo: int, hi: int)
    requires ValidLog(log) && 0 <= lo <= hi
    ensures At(log, hi) == Replay(At(log, lo), Between(log, lo, hi))
  {
    BetweenSplits(log, lo, hi);
    ReplayConcat(map[], Between(log, 0, lo), Between(log, lo, hi));
  }

  // ------------------------------------------------------------- collapsing changes

  /** The last change about `id`. */
  function Last(changes: seq<Change>, id: string): Option<Change>
    decreases |changes|
  {
    if changes == [] then None
    else if Key(changes[|changes| - 1]) == id then Some(changes[|changes| - 1])
    else Last(changes[..|changes| - 1], id)
  }

  /** Every change names an export and each export's changes come in revision order. */
  predicate Collapsible(changes: seq<Change>) {
    && (forall c :: c in changes ==> Key(c) != "")
    && (forall i, j :: 0 <= i < j < |changes| && Key(changes[i]) == Key(changes[j]) ==> changes[i].revision <= changes[j].revision)
  }

  ghost predicate CollapsesTo(changes: seq<Change>, final: map<string, Change>) {
    && (forall id: string :: id in final <==> Last(changes, id).Some?)
    && (forall id :: id in final ==> final[id] == Last(changes, id).value.(exportID := id))
  }

  /** The source's loop: it succeeds exactly on collapsible input and keeps each export's last change. */
  method CollapseRegistryChanges(changes: seq<Change>) returns (ok: bool, final: map<string, Change>)
    ensures ok <==> Collapsible(changes)
    ensures ok ==> CollapsesTo(changes, final)
  {
    hide Key;
    final := map[];
    assert changes[..0] == [];
    for i := 0 to |changes|
      invariant Collapsible(changes[..i])
      invariant CollapsesTo(changes[..i], final)
    {
      var id := Key(changes[i]);
      assert changes[..i + 1][..i] == changes[..i];
      if id == "" {
        assert changes[i] in changes;
        return false, map[];
      }
      if id in final && changes[i].revision < final[id].revision {
        var j := LastIndex(changes[..i], id);
        return false, map[];
      }
      if id in final {
        EarlierNotLater(changes[..i], id, final[id].revision);
      } else {
        NeverBefore(changes[..i], id);
      }
      final := final[id := changes[i].(exportID := id)];
    }
    assert changes[..|changes|] == changes;
    ok := true;
  }

  lemma {:induction false} LastIndex(changes: seq<Change>, id: string) returns (i: nat)
    requires Last(changes, id).Some?
    ensures i < |changes| && changes[i] == Last(changes, id).value && Key(changes[i]) == id
    ensures forall j :: i < j < |changes| ==> Key(changes[j]) != id
    decreases |changes|
  {
    hide Key;
    var n := |changes| - 1;
    if Key(changes[n]) == id {
      i := n;
    } else {
      i := LastIndex(changes[..n], id);
    }
  }

  lemma {:induction false} NeverBefore(changes: seq<Change>, id: string)
    requires Last(changes, id).None?
    ensures forall j :: 0 <= j < |changes| ==> Key(changes[j]) != id
    decreases |changes|
  {
    hide Key;
    if changes != [] {
      NeverBefore(changes[..|changes| - 1], id);
    }
  }

  lemma EarlierNotLater(changes: seq<Change>, id: string, revision: int)
    requires Collapsible(changes) && Last(changes, id).Some? && Last(changes, id).value.revision == revision
    ensures forall j :: 0 <= j < |changes| && Key(changes[j]) == id ==> changes[j].revision <= revision
  {
    hide Key;
    var i := LastIndex(changes, id);
  }

  /** What one collapsed change does to a served export. */
  predicate Keeps(c: Change, gateway: string) {
    c.operation == "upsert" && c.view.Some? && AssignedTo(Normalize(c.view.value), gateway)
  }

  function Update(served: Exports, final: map<string, Change>, gateway: string): Exports {
    map id | id in served.Keys + final.Keys && (id in final ==> Keeps(final[id], gateway))
      :: if id in final then Normalize(final[id].view.value) else served[id]
  }

  lemma {:induction false} ReplayAt(reg: Exports, changes: seq<Change>, id: string)
    ensures
      var last := Last(changes, id);
      if last.None? then
        (id in Replay(reg, changes) <==> id in reg) && (id in reg ==> Replay(reg, changes)[id] == reg[id])
      else if last.value.operation == "upsert" && last.value.view.Some? then
        id in Replay(reg, changes) && Replay(reg, changes)[id] == Normalize(last.value.view.value)
      else id !in Replay(reg, changes)
    decreases |changes|
  {
    if changes != [] {
      ReplayAt(reg, changes[..|changes| - 1], id);
    }
  }

  /** Applying only the last change of each export, one by one in any order, serves what replaying every change would. */
  lemma CollapseIsReplay(reg: Exports, changes: seq<Change>, final: map<string, Change>, gateway: string)
    requires CollapsesTo(changes, final)
    ensures Update(Served(reg, gateway), final, gateway) == Served(Replay(reg, changes), gateway)
  {
    var u, s := Update(Served(reg, gateway), final, gateway), Served(Replay(reg, changes), gateway);
    forall id: string
      ensures (id in u <==> id in s) && (id in u ==> u[id] == s[id])
    {
      ReplayAt(reg, changes, id);
    }
  }
}
