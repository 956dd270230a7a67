/**
 The live reload controller (iscsi/live_reload.go): fetch, prepare, apply, close.
 One serving checkpoint always names one complete supervisor generation.
 */
module LiveReload {
  import opened Words
  import opened Text
  import opened Registry
  import opened RegistryFetch
  import opened ReloadBudget
  import opened Supervisor
  import opened RuntimeLedger

  datatype Failure = FetchFault | Uncollapsible | NotStaged(fault: Fault) | OverCap | ApplyRefused

  datatype Result =
    | Failed(why: Failure)
    | Done(outcome: Outcome, revision: U64, generation: U64, changed: nat, resynced: bool)

  // ------------------------------------------------------------- serving map and books

  /** Every runtime was prepared for its export and has a store. */
  ghost predicate Runs(m: Runtimes) {
    forall k :: k in m ==> Matches(m[k].state, m[k].spec) && m[k].spec.store.Some?
  }

  /** Serving map and books fit together: what is served is open and owned, and nothing else is open. */
  ghost predicate Consistent(b: Books, m: Runtimes, cap: nat) {
    Balanced(b, Ids(m)) && Owned(b, m) && |m| <= cap && Runs(m)
  }

  /** The backing stores behind a published generation. */
  function Stores(runtimes: map<string, Runtime>): set<nat> {
    set id | id in runtimes && runtimes[id].spec.store.Some? :: runtimes[id].spec.store.value
  }

  /** A published generation holds no store but those of the serving map. */
  lemma StoresOfPublished(runtimes: map<string, Runtime>, m: Runtimes, b: Books)
    requires Publishes(runtimes, m, Serving) && Owned(b, m)
    ensures Stores(runtimes) <= Ids(m)
  {
    hide SpecOf, Ids;
    forall id | id in runtimes && runtimes[id].spec.store.Some?
      ensures runtimes[id].spec.store.value in Ids(m)
    {
      var k :| k in m && runtimes[id].spec == SpecOf(m[k]);
      StoreKept(b, m, k);
    }
  }

  lemma StoreKept(b: Books, m: Runtimes, k: string)
    requires Owned(b, m) && k in m
    ensures SpecOf(m[k]).store == m[k].spec.store && m[k].id in Ids(m)
    ensures m[k].spec.store == None || m[k].spec.store == Some(m[k].id)
  {
  }

  lemma NothingServed(cap: nat)
    ensures Consistent(Books(0, {}, multiset{}), map[], cap)
  {
    assert Books(0, {}, multiset{}).closable - Ids(map[]) == {};
  }

  lemma StillConsistent(b0: Books, b: Books, m: Runtimes, cap: nat)
    requires Consistent(b0, m, cap) && Continues(b0, b) && Balanced(b, Ids(m))
    ensures Consistent(b, m, cap)
  {
    hide Balanced, Matches;
  }

  // ------------------------------------------------------------- planning a changed set

  /** `next` is the updated registry: unchanged exports keep their very runtime, changed ones have a newly prepared one. */
  ghost predicate Revises(m: Runtimes, next: Runtimes, changes: map<string, Change>, gateway: string, from: nat) {
    && States(next) == Update(States(m), changes, gateway)
    && (forall k :: k in next && k !in changes ==> k in m && next[k] == m[k])
    && (forall k :: k in next && k in changes ==> next[k].id >= from)
  }

  /** What each way of failing to apply a changed set means. */
  ghost predicate RefusedChanges(why: Failure, m: Runtimes, changes: map<string, Change>, gateway: string, prepare: Preparer,
                                 b0: Books, b: Books, proposed: Runtimes, cap: nat, applierCap: nat)
  {
    match why
    case NotStaged(BadChange) => exists k :: k in changes && !Processable(changes[k])
    case NotStaged(PrepareRefused) =>
      exists k, n :: b0.next <= n < b.next && k in Prepares(changes, gateway) && Unusable(prepare, Normalize(changes[k].view.value), n)
    case OverCap => |proposed| > cap && Revises(m, proposed, changes, gateway, b0.next)
    case ApplyRefused =>
      (|proposed| > applierCap || !Compatible(proposed)) && Revises(m, proposed, changes, gateway, b0.next)
    case _ => false
  }

  /** A round staged on top of `m`, ready to be published. */
  ghost predicate Ready(b0: Books, b: Books, m: Runtimes, done: set<string>, staged: Runtimes, next: Runtimes, cap: nat) {
    && Consistent(b0, m, cap) && Staging(b0, b, Ids(m), staged)
    && staged.Keys <= done && next == Overlay(m, done, staged) && |next| <= cap && b0.next <= b.next
  }

  /** The first half of applyChanges, up to the call of the applier. */
  method PlanChanges(m: Runtimes, changes: map<string, Change>, gateway: string, prepare: Preparer, b0: Books, cap: nat,
                     ghost applierCap: nat, ghost published: set<nat>)
    returns (fault: Option<Failure>, next: Runtimes, staged: Runtimes, b: Books)
    requires Consistent(b0, m, cap) && published <= Ids(m)
    ensures b0.next <= b.next
    ensures fault.Some? ==>
      Consistent(b, m, cap) && RefusedChanges(fault.value, m, changes, gateway, prepare, b0, b, next, cap, applierCap)
    ensures fault.None? ==> Ready(b0, b, m, changes.Keys, staged, next, cap) && Revises(m, next, changes, gateway, b0.next)
  {
    hide Balanced, Owned, Runs, Staging, ActedOn, Overlay, Revises, Unusable, Normalize, Ids, Compatible, Continues, Processable, Prepares;
    var f;
    f, next, staged, b := StageChanges(m, changes, gateway, prepare, b0, published);
    ContinuesNext(b0, b);
    if f != NoFault {
      StillConsistent(b0, b, m, cap);
      return Some(NotStaged(f)), next, staged, b;
    }
    StagedRevises(b0, b, m, changes, gateway, staged);
    if |next| > cap {
      b := CloseStaged(b0, b, staged, Ids(m), published);
      StillConsistent(b0, b, m, cap);
      return Some(OverCap), next, staged, b;
    }
    fault := None;
  }

  lemma ContinuesNext(b0: Books, b: Books)
    requires Continues(b0, b)
    ensures b0.next <= b.next
  {
  }

  lemma StagedStates(m: Runtimes, changes: map<string, Change>, gateway: string, staged: Runtimes)
    requires ActedOn(changes, gateway, changes.Keys, staged)
    ensures States(Overlay(m, changes.Keys, staged)) == Update(States(m), changes, gateway)
  {
    hide Normalize, Keeps;
  }

  lemma StagedRevises(b0: Books, b: Books, m: Runtimes, changes: map<string, Change>, gateway: string, staged: Runtimes)
    requires ActedOn(changes, gateway, changes.Keys, staged) && Staging(b0, b, Ids(m), staged)
    ensures Revises(m, Overlay(m, changes.Keys, staged), changes, gateway, b0.next) && staged.Keys <= changes.Keys
  {
    hide Normalize, Keeps, Update, States, Matches, Balanced, Processable, Owned, Ids, Continues;
    StagedStates(m, changes, gateway, staged);
  }

  lemma RefusedByApply(m: Runtimes, changes: map<string, Change>, gateway: string, prepare: Preparer, b0: Books, b: Books,
                       next: Runtimes, cap: nat, applierCap: nat)
    requires Revises(m, next, changes, gateway, b0.next) && (|next| > applierCap || !Compatible(next))
    ensures RefusedChanges(ApplyRefused, m, changes, gateway, prepare, b0, b, next, cap, applierCap)
  {
    hide Revises, Compatible;
  }

  // ------------------------------------------------------------- closing after a decision

  /** Closing what was staged leaves the serving map as it was. */
  method Withdraw(b0: Books, b: Books, m: Runtimes, ghost done: set<string>, staged: Runtimes, ghost next: Runtimes,
                  ghost cap: nat, ghost published: set<nat>)
    returns (b': Books)
    requires Ready(b0, b, m, done, staged, next, cap) && published <= Ids(m)
    ensures Consistent(b', m, cap) && b0.next <= b'.next == b.next
  {
    hide Consistent, Balanced, Staging, Overlay, Ids;
    b' := CloseStaged(b0, b, staged, Ids(m), published);
    StillConsistent(b0, b', m, cap);
  }

  /** Closing what was replaced, once the next map is published. */
  method Retire(b0: Books, b: Books, m: Runtimes, ghost done: set<string>, ghost staged: Runtimes, next: Runtimes,
                ghost cap: nat, ghost runtimes: map<string, Runtime>)
    returns (b': Books)
    requires Ready(b0, b, m, done, staged, next, cap) && Compatible(next) && Publishes(runtimes, next, Serving)
    ensures Consistent(b', next, cap) && b0.next <= b'.next
  {
    hide Consistent, Balanced, Staging, Overlay, Ids, IdsOf, Replaced, Publishes, Stores, Compatible, Owned, Runs;
    Replacing(b0, b, m, done, staged, cap);
    StoresOfPublished(runtimes, next, b);
    b' := CloseReplacedRuntimes(b, m, next, Ids(m) + Ids(staged), Stores(runtimes));
    Replacement(b, b', next, cap);
  }

  /** Before the old runtimes are closed: those to close are the changed ones, and the next map does not use them. */
  lemma Replacing(b0: Books, b: Books, m: Runtimes, done: set<string>, staged: Runtimes, cap: nat)
    requires Consistent(b0, m, cap) && Staging(b0, b, Ids(m), staged) && staged.Keys <= done
    requires Compatible(Overlay(m, done, staged))
    ensures
      var next := Overlay(m, done, staged);
      && Owned(b, m) && Owned(b, next) && Runs(next) && Balanced(b, Ids(m) + Ids(staged))
      && IdsOf(m, Replaced(m, next)) !! Ids(next)
      && Ids(m) + Ids(staged) - IdsOf(m, Replaced(m, next)) == Ids(next)
  {
    hide Balanced, Ids, IdsOf, Matches, Replaced, Compatible, Overlay, Owned, Runs;
    var next := Overlay(m, done, staged);
    StillOwned(b0, b, m);
    HaveStores(next);
    OverlayOwned(b0, b, m, done, staged);
    StagedStores(b, b0.next, m, done, staged);
    ReplacedAreChanged(b0, m, done, staged);
    IdsOfOverlay(b0, b, m, done, staged);
  }

  lemma StillOwned(b0: Books, b: Books, m: Runtimes)
    requires Owned(b0, m) && Continues(b0, b)
    ensures Owned(b, m)
  {
  }

  lemma HaveStores(m: Runtimes)
    requires Compatible(m)
    ensures forall k :: k in m ==> m[k].spec.store.Some?
  {
    forall k | k in m
      ensures m[k].spec.store.Some?
    {
      assert ValidSpec(SpecOf(m[k]));
    }
  }

  lemma StagedStores(b: Books, from: nat, m: Runtimes, done: set<string>, staged: Runtimes)
    requires NewlyPrepared(b, from, staged)
    requires forall k :: k in Overlay(m, done, staged) ==> Overlay(m, done, staged)[k].spec.store.Some?
    ensures forall k :: k in staged ==> staged[k].spec.store.Some? && staged[k].spec.store.value >= from
  {
    hide Matches;
    assert forall k :: k in staged ==> Overlay(m, done, staged)[k] == staged[k];
  }

  lemma OverlayOwned(b0: Books, b: Books, m: Runtimes, done: set<string>, staged: Runtimes)
    requires Owned(b0, m) && Owned(b, m) && NewlyPrepared(b, b0.next, staged) && Runs(m)
    requires forall k :: k in Overlay(m, done, staged) ==> Overlay(m, done, staged)[k].spec.store.Some?
    ensures Owned(b, Overlay(m, done, staged)) && Runs(Overlay(m, done, staged))
  {
    hide Matches;
  }

  lemma ReplacedAreChanged(b0: Books, m: Runtimes, done: set<string>, staged: Runtimes)
    requires Owned(b0, m) && Runs(m) && staged.Keys <= done
    requires forall k :: k in staged ==> staged[k].spec.store.Some? && staged[k].spec.store.value >= b0.next
    ensures Replaced(m, Overlay(m, done, staged)) == m.Keys * done
  {
    hide Matches;
  }

  lemma IdsOfOverlay(b0: Books, b: Books, m: Runtimes, done: set<string>, staged: Runtimes)
    requires Owned(b0, m) && NewlyPrepared(b, b0.next, staged) && staged.Keys <= done
    ensures IdsOf(m, m.Keys * done) !! Ids(Overlay(m, done, staged))
    ensures Ids(m) + Ids(staged) - IdsOf(m, m.Keys * done) == Ids(Overlay(m, done, staged))
  {
    hide Matches;
  }

  lemma Replacement(b: Books, b': Books, next: Runtimes, cap: nat)
    requires Owned(b, next) && Runs(next) && Balanced(b', Ids(next)) && |next| <= cap
    requires b'.next == b.next && b'.closable == b.closable
    ensures Consistent(b', next, cap)
  {
    hide Balanced, Matches;
  }

  // ------------------------------------------------------------- planning a resync

  /** One of the Prepare calls numbered `from` to `to` was for one of these exports and could not be used. */
  ghost predicate PrepareFails(exports: Exports, prepare: Preparer, from: nat, to: nat) {
    exists k, n :: from <= n < to && k in exports && Unusable(prepare, exports[k], n)
  }

  /** What each way of failing to apply a snapshot means. */
  ghost predicate RefusedSnapshot(why: Failure, snapshot: Snapshot, prepare: Preparer, b0: Books, b: Books, proposed: Runtimes,
                                  applierCap: nat)
  {
    match why
    case FetchFault => snapshot.SnapshotFailed?
    case NotStaged(PrepareRefused) =>
      snapshot.Snapshot? && PrepareFails(snapshot.exports, prepare, b0.next, b.next)
    case ApplyRefused =>
      snapshot.Snapshot? && States(proposed) == snapshot.exports && (|proposed| > applierCap || !Compatible(proposed))
    case _ => false
  }

  /** The first half of applyResync after its decision: everything is prepared anew. */
  method PlanResync(m: Runtimes, exports: Exports, prepare: Preparer, b0: Books, ghost cap: nat, ghost published: set<nat>)
    returns (ok: bool, staged: Runtimes, b: Books, ghost done: set<string>)
    requires Consistent(b0, m, cap) && published <= Ids(m) && |exports| <= cap
    ensures b0.next <= b.next
    ensures !ok ==>
      Consistent(b, m, cap) && PrepareFails(exports, prepare, b0.next, b.next)
    ensures ok ==> Ready(b0, b, m, done, staged, staged, cap) && States(staged) == exports
  {
    hide Consistent, Staging, Unusable, Ids, Overlay, States, Balanced, Continues;
    ConsistentBalanced(b0, m, cap);
    var f;
    f, staged, b := StageSnapshot(exports, prepare, b0, m, published);
    ContinuesNext(b0, b);
    done := m.Keys + staged.Keys;
    ok := f == NoFault;
    if ok {
      AllReplaced(m, staged);
    } else {
      StillConsistent(b0, b, m, cap);
    }
  }

  lemma ConsistentBalanced(b: Books, m: Runtimes, cap: nat)
    requires Consistent(b, m, cap)
    ensures Balanced(b, Ids(m))
  {
  }

  lemma AllReplaced(m: Runtimes, staged: Runtimes)
    ensures staged == Overlay(m, m.Keys + staged.Keys, staged) && |States(staged)| == |staged|
  {
    assert States(staged).Keys == staged.Keys;
    assert |staged| == |staged.Keys| && |States(staged)| == |States(staged).Keys|;
  }

  lemma SnapshotFits(replies: seq<SnapshotReply>, gateway: string, cap: nat)
    ensures var s := FetchSnapshot(replies, gateway, cap); s.Snapshot? ==> |s.exports| <= cap
  {
    SnapshotSelects(replies, gateway, cap, SnapshotCursor(true, 0, 0, map[]));
  }

  /** A published snapshot replaces every old runtime. */
  method RetireAll(b0: Books, b: Books, m: Runtimes, ghost done: set<string>, ghost staged: Runtimes, ghost cap: nat,
                   ghost runtimes: map<string, Runtime>)
    returns (b': Books)
    requires Ready(b0, b, m, done, staged, staged, cap) && Compatible(staged) && Publishes(runtimes, staged, Serving)
    ensures Consistent(b', staged, cap) && b0.next <= b'.next
  {
    hide Consistent, Balanced, Staging, Overlay, Ids, IdsOf, Replaced, Publishes, Stores, Compatible, Owned, Runs;
    Replacing(b0, b, m, done, staged, cap);
    StoresOfPublished(runtimes, staged, b);
    NewAreDifferent(b0, b, m, staged, cap);
    b' := ClosePreparedRuntimes(b, m, Ids(m) + Ids(staged), Stores(runtimes));
    Replacement(b, b', staged, cap);
  }

  lemma NewAreDifferent(b0: Books, b: Books, m: Runtimes, staged: Runtimes, cap: nat)
    requires Consistent(b0, m, cap) && Staging(b0, b, Ids(m), staged)
    ensures Ids(m) !! Ids(staged) && Ids(m) + Ids(staged) - Ids(m) == Ids(staged)
  {
    hide Balanced, Matches, Runs;
  }

  // ------------------------------------------------------------- staying in step with the registry

  /** One poll: what the source answers after a revision, its snapshot, and what the preparer does. */
  datatype Round = Round(changes: U64 -> seq<ChangeReply>, snapshot: seq<SnapshotReply>, prepare: Preparer)

  /** The source tells the truth about `log`. */
  ghost predicate Faithful(log: seq<Change>, round: Round) {
    && ValidLog(log) && FaithfulSnapshot(log, round.snapshot)
    && (forall after: U64 :: FaithfulChanges(log, after, round.changes(after)))
  }

  lemma CatchUp(log: seq<Change>, round: Round, after: U64, states: Exports, final: map<string, Change>, gateway: string)
    requires Faithful(log, round) && states == Served(At(log, after), gateway)
    requires var r := Fetch(after, round.changes(after)); r.Changes? && CollapsesTo(r.changes, final)
    ensures Update(states, final, gateway) == Served(At(log, Fetch(after, round.changes(after)).checkpoint), gateway)
  {
    hide Served, Update, At, ValidLog, FaithfulSnapshot, CollapsesTo, FetchFrom;
    var r := Fetch(after, round.changes(after));
    FetchFaithful(log, after, round.changes(after));
    AtAdvances(log, after, r.checkpoint);
    CollapseIsReplay(At(log, after), r.changes, final, gateway);
  }

  /** What each way of failing a poll means; `final` are the collapsed changes when it got that far. */
  ghost predicate RefusedRound(why: Failure, round: Round, after: U64, m: Runtimes, final: map<string, Change>, gateway: string,
                               b0: Books, b: Books, proposed: Runtimes, cap: nat, applierCap: nat)
  {
    match Fetch(after, round.changes(after))
    case Changes(changes, _, _) =>
      if !Collapsible(changes) then why == Uncollapsible
      else
        CollapsesTo(changes, final) && RefusedChanges(why, m, final, gateway, round.prepare, b0, b, proposed, cap, applierCap)
    case ResyncNeeded(_) =>
      RefusedSnapshot(why, FetchSnapshot(round.snapshot, gateway, cap), round.prepare, b0, b, proposed, applierCap)
    case _ => why == FetchFault
  }

  /** `final` is the last change of each export in what the poll fetched. */
  ghost predicate Collapsed(round: Round, after: U64, final: map<string, Change>) {
    var r := Fetch(after, round.changes(after));
    r.Changes? && CollapsesTo(r.changes, final)
  }

  lemma CollapsedInRange(changes: seq<Change>, final: map<string, Change>, lo: int, hi: int)
    requires CollapsesTo(changes, final) && forall c :: c in changes ==> lo < c.revision <= hi
    ensures forall k :: k in final ==> lo < final[k].revision <= hi
  {
    hide Key;
    forall k | k in final
      ensures lo < final[k].revision <= hi
    {
      var i := LastIndex(changes, k);
      assert changes[i] in changes;
    }
  }

  /** The checkpoint a poll is about, when it learns one. */
  function Offered(round: Round, after: U64, gateway: string, cap: nat): Option<(int, int)> {
    match Fetch(after, round.changes(after))
    case Changes(_, checkpoint, generation) => Some((checkpoint, generation))
    case ResyncNeeded(_) =>
      var s := FetchSnapshot(round.snapshot, gateway, cap);
      if s.Snapshot? then Some((s.revision, s.generation)) else None
    case _ => None
  }

  predicate WantsResync(round: Round, after: U64) {
    Fetch(after, round.changes(after)).ResyncNeeded?
  }

  /** The one kind of success that leaves a new controller without a generation. */
  predicate EmptyResync(round: Round, after: U64, gateway: string, cap: nat) {
    var s := FetchSnapshot(round.snapshot, gateway, cap);
    WantsResync(round, after) && s.Snapshot? && s.revision == 0 && s.generation == 0
  }

  // ------------------------------------------------------------- the controller

  class LiveReloadController {
    const gateway: string
    const maxExports: nat
    const reload: ReloadState
    const generation: AtomicSupervisorGeneration
    var current: Runtimes
    var initialized: bool
    var resyncs: nat
    var books: Books

    ghost predicate Valid()
      reads this, reload, generation, generation.current
    {
      && Consistent(books, current, maxExports)
      && (initialized <==> generation.current != null)
      && (generation.current != null ==> Publishes(generation.current.runtimes, current, Serving) && Compatible(current))
      && (!initialized ==> current == map[] && reload.appliedRevision == 0 && reload.appliedGeneration == 0)
    }

    /** What is served is what the registry assigned to this gateway at the serving revision. */
    ghost predicate InSync(log: seq<Change>)
      reads this, reload
    {
      States(current) == Served(At(log, reload.appliedRevision), gateway)
    }

    function Checkpoint(): (int, int)
      reads reload
    {
      (reload.appliedRevision, reload.appliedGeneration)
    }

    ghost function Published(): set<nat>
      reads this, generation, generation.current
    {
      if generation.current == null then {} else Stores(generation.current.runtimes)
    }

    /** Nothing a session could see has changed. */
    twostate predicate Untouched()
      reads this, reload, generation, generation.current
    {
      && current == old(current) && initialized == old(initialized) && Checkpoint() == old(Checkpoint())
      && generation.current == old(generation.current)
      && (generation.current != null ==> generation.current.runtimes == old(generation.current.runtimes))
    }

    constructor (gateway: string, maxExports: nat, generation: AtomicSupervisorGeneration)
      requires generation.current == null
      ensures Valid() && fresh(reload) && !initialized && this.generation == generation
      ensures this.gateway == Trim(gateway) && this.maxExports == maxExports
      ensures forall log :: InSync(log)
    {
      this.gateway, this.maxExports, this.generation := Trim(gateway), maxExports, generation;
      reload := new ReloadState();
      current, initialized, resyncs, books := map[], false, 0, Books(0, {}, multiset{});
      new;
      NothingServed(maxExports);
      forall log: seq<Change>
        ensures At(log, 0) == map[]
      {
        AtZero(log);
      }
    }

    lemma PublishedIsServed()
      requires Valid()
      ensures Published() <= Ids(current)
    {
      hide Balanced, Publishes, Stores, Ids, Owned, Runs;
      if generation.current != null {
        StoresOfPublished(generation.current.runtimes, current, books);
      }
    }

    /** Every store behind the published generation belongs to the serving map and has not been closed. */
    lemma PublishedIsOpen(store: nat)
      requires Valid() && store in Published()
      ensures store in Ids(current) && store !in books.closed
    {
      hide Publishes, Stores, Ids, Owned, Runs;
      PublishedIsServed();
    }

    /**
     All the changes or none.  On success the checkpoint is the given one, the
     published generation serves exactly the updated registry, exports without
     a change keep their very runtime, and every runtime that went out of use
     is closed once.  On any failure nothing visible changes and what was
     prepared on the way is closed.
     */
    method ApplyChanges(changes: map<string, Change>, revision: U64, configGeneration: U64, prepare: Preparer)
      returns (r: Result, ghost proposed: Runtimes)
      requires Valid()
      modifies this, reload, generation, generation.current
      ensures Valid() && old(books.next) <= books.next && resyncs == old(resyncs)
      ensures r.Failed? ==>
        && Untouched()
        && RefusedChanges(r.why, old(current), changes, gateway, prepare, old(books), books, proposed, maxExports, generation.maxExports)
      ensures r.Done? ==>
        && r == Done(ApplyNewer, revision, configGeneration, |changes|, false)
        && initialized && Checkpoint() == (revision, configGeneration) && fresh(generation.current)
        && Revises(old(current), current, changes, gateway, old(books.next))
    {
      hide Consistent, Publishes, Ready, RefusedChanges, Revises, Compatible, Stores, Ids;
      PublishedIsServed();
      var fault, next, staged, b :=
        PlanChanges(current, changes, gateway, prepare, books, maxExports, generation.maxExports, Published());
      proposed := next;
      if fault.Some? {
        books := b;
        return Failed(fault.value), proposed;
      }
      var ok := generation.Apply(next);
      if !ok {
        b := Withdraw(books, b, current, changes.Keys, staged, next, maxExports, Published());
        RefusedByApply(current, changes, gateway, prepare, books, b, proposed, maxExports, generation.maxExports);
        books := b;
        return Failed(ApplyRefused), proposed;
      }
      b := Retire(books, b, current, changes.Keys, staged, next, maxExports, generation.current.runtimes);
      current, books, initialized := next, b, true;
      reload.Applied(revision, configGeneration);
      r := Done(ApplyNewer, revision, configGeneration, |changes|, false);
    }

    /** A full resync, applied only when it is later than what is served. */
    method ApplyResync(replies: seq<SnapshotReply>, prepare: Preparer) returns (r: Result, ghost proposed: Runtimes)
      requires Valid()
      modifies this, reload, generation, generation.current
      ensures Valid() && old(books.next) <= books.next
      ensures resyncs == old(resyncs) + if r.Done? && r.outcome == ApplyNewer then 1 else 0
      ensures r.Failed? ==>
        && Untouched()
        && RefusedSnapshot(r.why, FetchSnapshot(replies, gateway, maxExports), prepare, old(books), books, proposed, generation.maxExports)
      ensures r.Done? ==>
        var s := FetchSnapshot(replies, gateway, maxExports);
        && s.Snapshot? && r.revision == s.revision && r.generation == s.generation
        && (r.outcome == ApplyNewer <==> Later(old(Checkpoint()), (s.revision, s.generation)))
        && (r.outcome == SkipUnchanged <==> (s.revision, s.generation) == old(Checkpoint()))
        && (r.outcome != ApplyNewer ==> Untouched())
        && (r.outcome == ApplyNewer ==>
              && initialized && Checkpoint() == (s.revision, s.generation) && fresh(generation.current)
              && States(current) == s.exports && r.changed == |s.exports| && r.resynced)
    {
      hide Consistent, Publishes, Ready, RefusedSnapshot, Compatible, Stores, Ids, States, Unusable, FetchSnapshot;
      var snapshot := FetchSnapshotPages(replies, gateway, maxExports);
      proposed := map[];
      if snapshot.SnapshotFailed? {
        RefusedByFetch(snapshot, prepare, books, proposed, generation.maxExports);
        return Failed(FetchFault), proposed;
      }
      SnapshotFits(replies, gateway, maxExports);
      var outcome := reload.Decide(snapshot.revision, snapshot.generation);
      if outcome != ApplyNewer {
        return Done(outcome, snapshot.revision, snapshot.generation, 0, false), proposed;
      }
      r, proposed := ReplaceAll(snapshot, prepare);
    }

    /** The second half of applyResync: prepare everything anew, publish, close everything old. */
    method ReplaceAll(snapshot: Snapshot, prepare: Preparer) returns (r: Result, ghost proposed: Runtimes)
      requires Valid() && snapshot.Snapshot? && |snapshot.exports| <= maxExports
      modifies this, reload, generation, generation.current
      ensures Valid() && old(books.next) <= books.next && resyncs == old(resyncs) + if r.Done? then 1 else 0
      ensures r.Failed? ==>
        Untouched() && RefusedSnapshot(r.why, snapshot, prepare, old(books), books, proposed, generation.maxExports)
      ensures r.Done? ==>
        && r == Done(ApplyNewer, snapshot.revision, snapshot.generation, |snapshot.exports|, true)
        && initialized && Checkpoint() == (snapshot.revision, snapshot.generation) && fresh(generation.current)
        && States(current) == snapshot.exports
    {
      hide Consistent, Publishes, Ready, RefusedSnapshot, Compatible, Stores, Ids, States, PrepareFails;
      PublishedIsServed();
      var staged, ok, b;
      ghost var done;
      ok, staged, b, done := PlanResync(current, snapshot.exports, prepare, books, maxExports, Published());
      proposed := staged;
      if !ok {
        RefusedByPrepare(snapshot, prepare, books, b, proposed, generation.maxExports);
        books := b;
        return Failed(NotStaged(PrepareRefused)), proposed;
      }
      ok := generation.Apply(staged);
      if !ok {
        b := Withdraw(books, b, current, done, staged, staged, maxExports, Published());
        RefusedResync(snapshot, prepare, books, b, proposed, generation.maxExports);
        books := b;
        return Failed(ApplyRefused), proposed;
      }
      b := RetireAll(books, b, current, done, staged, maxExports, generation.current.runtimes);
      current, books, initialized, resyncs := staged, b, true, resyncs + 1;
      reload.Applied(snapshot.revision, snapshot.generation);
      r := Done(ApplyNewer, snapshot.revision, snapshot.generation, |snapshot.exports|, true);
    }

    /**
     One poll.  Whatever the source and the preparer do: a failure or a skip
     changes nothing visible, a success publishes a complete new generation
     under a later checkpoint (the first one may be the empty checkpoint).
     When the source is faithful, what is served stays what the registry says,
     and a resync makes it so whatever was served before.
     */
    method ReloadOnce(round: Round, ghost log: seq<Change>)
      returns (r: Result, ghost final: map<string, Change>, ghost proposed: Runtimes)
      requires Valid()
      modifies this, reload, generation, generation.current
      ensures Valid()
      ensures r.Failed? || r.outcome != ApplyNewer ==> Untouched()
      ensures r.Failed? ==>
        RefusedRound(r.why, round, old(reload.appliedRevision), old(current), final, gateway, old(books), books, proposed,
                     maxExports, generation.maxExports)
      ensures r.Done? ==>
        var offered := Offered(round, old(reload.appliedRevision), gateway, maxExports);
        && offered == Some((r.revision, r.generation))
        && (r.outcome == RejectStale <==> Later(offered.value, old(Checkpoint())))
        && (r.outcome == SkipUnchanged ==> offered.value == old(Checkpoint()))
      ensures r.Done? && r.outcome == ApplyNewer && !r.resynced ==>
        && Collapsed(round, old(reload.appliedRevision), final)
        && (forall k :: k in final ==> old(reload.appliedRevision) < final[k].revision <= r.revision)
        && Revises(old(current), current, final, gateway, old(books.next))
      ensures r.Done? && r.outcome == ApplyNewer ==>
        && initialized && Checkpoint() == (r.revision, r.generation) && fresh(generation.current)
        && (Later(old(Checkpoint()), Checkpoint()) || (!old(initialized) && Checkpoint() == (0, 0)))
      ensures r.Done? ==> (initialized <==> old(initialized) || !EmptyResync(round, old(reload.appliedRevision), gateway, maxExports))
      ensures r.Done? && r.outcome == ApplyNewer ==> (r.resynced <==> WantsResync(round, old(reload.appliedRevision)))
      ensures resyncs == old(resyncs) + if r.Done? && r.outcome == ApplyNewer && r.resynced then 1 else 0
      ensures Faithful(log, round) && old(InSync(log)) ==> InSync(log)
      ensures Faithful(log, round) && r.Done? && r.outcome == ApplyNewer && r.resynced ==> InSync(log)
    {
      hide Consistent, Publishes, RefusedSnapshot, RefusedChanges, Revises, Stores, States, Served, Update, At, Faithful, CollapsesTo;
      hide FetchFrom, SnapshotFrom, Collapsible;
      var after := reload.appliedRevision;
      var fetched, pages := FetchChanges(after, round.changes(after));
      final, proposed := map[], map[];
      match fetched {
        case FetchFailed =>
          r := Failed(FetchFault);
        case FetchStale(to, configGeneration) =>
          var _ := reload.Decide(to, configGeneration);
          r := Failed(FetchFault);
        case ResyncNeeded(_) =>
          r, proposed := ApplyResync(round.snapshot, round.prepare);
          if Faithful(log, round) {
            ResyncFaithful(log, round, gateway, maxExports);
          }
        case Changes(changes, checkpoint, configGeneration) =>
          FetchInRange(after, round.changes(after), StartCursor(after));
          var outcome := reload.Decide(checkpoint, configGeneration);
          if !initialized && outcome == SkipUnchanged {
            outcome := ApplyNewer;
          }
          if outcome != ApplyNewer {
            return Done(outcome, checkpoint, configGeneration, 0, false), final, proposed;
          }
          var ok, collapsed := CollapseRegistryChanges(changes);
          final := collapsed;
          if !ok {
            return Failed(Uncollapsible), final, proposed;
          }
          CollapsedInRange(changes, collapsed, after, checkpoint);
          r, proposed := ApplyChanges(collapsed, checkpoint, configGeneration, round.prepare);
          if r.Done? {
            RevisedStates(old(current), current, final, gateway, old(books.next));
            if Faithful(log, round) && old(InSync(log)) {
              CatchUp(log, round, after, old(States(current)), final, gateway);
            }
          }
      }
    }

    /**
     Polling until cancelled.  An error of the first poll ends the run; later
     ones are only counted.  The checkpoint never moves back, a published
     generation is never withdrawn, and the books balance throughout.  With a
     faithful source the controller ends in step if it began so or resynced once.
     */
    method Run(first: Round, later: seq<Round>, ghost log: seq<Change>) returns (failed: bool, observed: nat)
      requires Valid()
      modifies this, reload, generation, generation.current
      ensures Valid() && (old(initialized) ==> initialized)
      ensures failed ==> Untouched() && observed == 0
      ensures !failed && !initialized ==> EmptyResync(first, old(reload.appliedRevision), gateway, maxExports)
      ensures Checkpoint() == old(Checkpoint()) || Later(old(Checkpoint()), Checkpoint())
      ensures resyncs >= old(resyncs)
      ensures Faithful(log, first) && (forall i :: 0 <= i < |later| ==> Faithful(log, later[i])) ==>
        old(InSync(log)) || resyncs > old(resyncs) ==> InSync(log)
      ensures observed <= |later|
    {
      hide Consistent, Publishes, EmptyResync, Faithful, States, Served, At, RefusedRound, Offered, Collapsed, Revises;
      observed := 0;
      var r;
      ghost var final, proposed;
      r, final, proposed := ReloadOnce(first, log);
      if r.Failed? {
        return true, 0;
      }
      for i := 0 to |later|
        invariant Valid() && (old(initialized) ==> initialized) && observed <= i
        invariant initialized || EmptyResync(first, old(reload.appliedRevision), gateway, maxExports)
        invariant generation.current == old(generation.current) || (generation.current != null && fresh(generation.current))
        invariant Checkpoint() == old(Checkpoint()) || Later(old(Checkpoint()), Checkpoint())
        invariant resyncs >= old(resyncs)
        invariant Faithful(log, first) && (forall j :: 0 <= j < i ==> Faithful(log, later[j])) ==>
          old(InSync(log)) || resyncs > old(resyncs) ==> InSync(log)
      {
        r, final, proposed := ReloadOnce(later[i], log);
        if r.Failed? {
          observed := observed + 1;
        }
      }
      failed := false;
    }

    /** What is published fits the cap and shares no target name and no device id, however it came about. */
    lemma PublishedDistinct(i: string, j: string)
      requires Valid() && initialized
      ensures |generation.current.runtimes| == |current| <= maxExports
      ensures i in generation.current.runtimes && j in generation.current.runtimes && i != j ==>
        Distinct(generation.current.runtimes[i].spec, generation.current.runtimes[j].spec)
    {
      hide SpecOf, Compatible, Distinct, Balanced, Owned, Runs, Ids;
      if i in generation.current.runtimes && j in generation.current.runtimes && i != j {
        RuntimesDistinct(generation.current.runtimes, current, i, j);
      }
    }

    /**
     End to end: in step with the registry, the published generation has a
     serving runtime for exactly the exports assigned to this gateway, each
     with the identity, lease and epoch the registry gives it, and no store of
     a serving runtime has been closed.
     */
    lemma ServesRegistry(log: seq<Change>, id: string)
      requires Valid() && initialized && InSync(log) && ValidLog(log)
      ensures
        var runtimes, served := generation.current.runtimes, Served(At(log, reload.appliedRevision), gateway);
        && (id in runtimes <==> id in served)
        && (id in runtimes ==>
              && runtimes[id].state == Serving && Matches(served[id], runtimes[id].spec)
              && runtimes[id].spec.store.Some? && runtimes[id].spec.store.value !in books.closed)
    {
      hide Served, At, Matches;
      var served := Served(At(log, reload.appliedRevision), gateway);
      ServedKeyed(log, reload.appliedRevision, gateway);
      PublishedPerExport(generation.current.runtimes, current, served, books, maxExports, id);
    }
  }

  lemma RuntimesDistinct(runtimes: map<string, Runtime>, m: Runtimes, i: string, j: string)
    requires Publishes(runtimes, m, Serving) && Compatible(m) && i in runtimes && j in runtimes && i != j
    ensures Distinct(runtimes[i].spec, runtimes[j].spec)
  {
    hide SpecOf, ValidSpec, Distinct;
    var k :| k in m && runtimes[i].spec == SpecOf(m[k]);
    var l :| l in m && runtimes[j].spec == SpecOf(m[l]);
  }

  lemma ServedKeyed(log: seq<Change>, revision: int, gateway: string)
    requires ValidLog(log)
    ensures
      var served := Served(At(log, revision), gateway);
      forall id :: id in served ==> served[id].exportID == id && Normalize(served[id]) == served[id]
  {
    hide AssignedTo, ValidLog, Normalize, At;
    AtKeyed(log, revision);
    AtNormalized(Between(log, 0, revision));
    assert At(log, revision) == Replay(map[], Between(log, 0, revision)) by { AtIs(log, revision); }
  }

  lemma AtIs(log: seq<Change>, revision: int)
    ensures At(log, revision) == Replay(map[], Between(log, 0, revision))
  {
  }

  lemma {:induction false} AtNormalized(changes: seq<Change>)
    ensures forall id :: id in Replay(map[], changes) ==> Normalize(Replay(map[], changes)[id]) == Replay(map[], changes)[id]
    decreases |changes|
  {
    hide Normalize, Key;
    if changes != [] {
      AtNormalized(changes[..|changes| - 1]);
      var c := changes[|changes| - 1];
      if c.view.Some? {
        NormalizeIdempotent(c.view.value);
      }
    }
  }

  lemma NormalizeIdempotent(e: ExportState)
    ensures Normalize(Normalize(e)) == Normalize(e)
  {
  }

  /** A spec prepared for a normalised state is installed with the state's own identity. */
  lemma InstalledIdentity(p: Prepared)
    requires Matches(p.state, p.spec) && Normalize(p.state) == p.state
    ensures Matches(p.state, SpecOf(p)) && SpecOf(p).store == p.spec.store
  {
  }

  lemma PublishedPerExport(runtimes: map<string, Runtime>, m: Runtimes, served: Exports, b: Books, cap: nat, id: string)
    requires Consistent(b, m, cap) && Publishes(runtimes, m, Serving) && States(m) == served
    requires forall k :: k in served ==> served[k].exportID == k && Normalize(served[k]) == served[k]
    ensures id in runtimes <==> id in served
    ensures id in runtimes ==>
      && runtimes[id].state == Serving && Matches(served[id], runtimes[id].spec)
      && runtimes[id].spec.store.Some? && runtimes[id].spec.store.value !in b.closed
  {
    hide SpecOf, Normalize;
    assert forall k :: k in m ==> served[k] == m[k].state;
    if id in runtimes {
      var k :| k in m && runtimes[id].spec == SpecOf(m[k]);
      InstalledIdentity(m[k]);
      StillOpen(b, m, k);
    } else if id in served {
      InstalledIdentity(m[id]);
    }
  }

  lemma StillOpen(b: Books, m: Runtimes, k: string)
    requires Balanced(b, Ids(m)) && Owned(b, m) && k in m
    ensures m[k].id !in b.closed && (m[k].spec.store.Some? ==> m[k].spec.store.value == m[k].id)
  {
    assert m[k].id in Ids(m);
  }

  /** A source that asks for a resync of an empty registry at revision 0. */
  function EmptyRegistry(prepare: Preparer): Round {
    Round((after: U64) => [ChangePage(after, after, 0, [], "", 0, true)], [SnapshotPage(0, 0, [], "")], prepare)
  }

  /** The claim that a successful start has loaded a generation fails: here the poll succeeds and nothing is published. */
  method EmptyResyncExample(gateway: string, maxExports: nat, prepare: Preparer)
    returns (c: LiveReloadController, r: Result)
    ensures r.Done? && r.outcome == SkipUnchanged && !c.initialized && c.generation.current == null
  {
    hide Consistent, Publishes, Revises, Served, At, Faithful, Collapsed, RefusedRound, Offered, EmptyResync, Fetch, EmptyRegistry;
    var generation := new AtomicSupervisorGeneration(maxExports);
    c := new LiveReloadController(gateway, maxExports, generation);
    ghost var final, proposed, before := map[], map[], c.books;
    var round := EmptyRegistry(prepare);
    IsEmptyResync(prepare, c.gateway, maxExports);
    r, final, proposed := c.ReloadOnce(round, []);
    if r.Failed? {
      NotRefused(r.why, prepare, map[], final, c.gateway, before, c.books, proposed, maxExports);
    }
  }

  /** None of the ways to fail applies to it. */
  lemma NotRefused(why: Failure, prepare: Preparer, m: Runtimes, final: map<string, Change>, gateway: string, b0: Books, b: Books,
                   proposed: Runtimes, cap: nat)
    ensures !RefusedRound(why, EmptyRegistry(prepare), 0, m, final, gateway, b0, b, proposed, cap, cap)
  {
    hide Unusable, SpecOf, Distinct, ValidSpec, EmptyRegistry;
    IsEmptyResync(prepare, gateway, cap);
    hide Fetch, FetchSnapshot;
    assert States(proposed).Keys == proposed.Keys;
    assert States(proposed) == map[] ==> |proposed.Keys| == 0 && |proposed| == |proposed.Keys|;
  }

  lemma IsEmptyResync(prepare: Preparer, gateway: string, cap: nat)
    ensures
      var round := EmptyRegistry(prepare);
      && EmptyResync(round, 0, gateway, cap) && FetchSnapshot(round.snapshot, gateway, cap) == Snapshot(map[], 0, 0)
      && Offered(round, 0, gateway, cap) == Some((0, 0))
  {
    hide AssignedTo;
    var page := ChangePage(0, 0, 0, [], "", 0, true);
    assert PageFault(0, StartCursor(0), page) == Some(ResyncNeeded(0));
    assert Select(map[], [], gateway, cap) == Some(map[]);
  }

  lemma RefusedByFetch(snapshot: Snapshot, prepare: Preparer, b: Books, proposed: Runtimes, applierCap: nat)
    requires snapshot.SnapshotFailed?
    ensures RefusedSnapshot(FetchFault, snapshot, prepare, b, b, proposed, applierCap)
  {
  }

  lemma RefusedByPrepare(snapshot: Snapshot, prepare: Preparer, b0: Books, b: Books, proposed: Runtimes, applierCap: nat)
    requires snapshot.Snapshot?
    requires PrepareFails(snapshot.exports, prepare, b0.next, b.next)
    ensures RefusedSnapshot(NotStaged(PrepareRefused), snapshot, prepare, b0, b, proposed, applierCap)
  {
  }

  lemma RefusedResync(snapshot: Snapshot, prepare: Preparer, b0: Books, b: Books, proposed: Runtimes, applierCap: nat)
    requires snapshot.Snapshot? && States(proposed) == snapshot.exports && (|proposed| > applierCap || !Compatible(proposed))
    ensures RefusedSnapshot(ApplyRefused, snapshot, prepare, b0, b, proposed, applierCap)
  {
  }

  lemma RevisedStates(m: Runtimes, next: Runtimes, changes: map<string, Change>, gateway: string, from: nat)
    requires Revises(m, next, changes, gateway, from)
    ensures States(next) == Update(States(m), changes, gateway)
  {
  }

  lemma ResyncFaithful(log: seq<Change>, round: Round, gateway: string, cap: nat)
    requires Faithful(log, round)
    ensures
      var s := FetchSnapshot(round.snapshot, gateway, cap);
      s.Snapshot? ==> s.exports == Served(At(log, s.revision), gateway)
  {
    SnapshotFaithful(log, round.snapshot, gateway, cap);
  }

  lemma AtZero(log: seq<Change>)
    ensures At(log, 0) == map[]
  {
    NothingBetween(log, 0);
  }

  lemma {:induction false} NothingBetween(log: seq<Change>, revision: int)
    ensures Between(log, revision, revision) == []
    decreases |log|
  {
    if log != [] {
      NothingBetween(log[..|log| - 1], revision);
    }
  }
}
