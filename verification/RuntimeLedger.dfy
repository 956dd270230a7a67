/**
 Preparing and closing export runtimes (iscsi/live_reload.go).  The books record
 every runtime a preparer handed out and every Close that was called, so that a
 leak or a second Close is visible.
 */
module RuntimeLedger {
  import opened Words
  import opened Registry
  import opened Supervisor

  /** `next` is the number of Prepare calls so far, `closable` those that returned a Close, `closed` the Close calls. */
  datatype Books = Books(next: nat, closable: set<nat>, closed: multiset<nat>)

  type Runtimes = map<string, Prepared>

  function Ids(m: Runtimes): set<nat> {
    set k | k in m :: m[k].id
  }

  function IdsOf(m: Runtimes, keys: set<string>): set<nat> {
    set k | k in keys && k in m :: m[k].id
  }

  /** Nothing open but `held`: every other runtime that can be closed was closed, exactly once, and no held one was. */
  ghost predicate Balanced(b: Books, held: set<nat>) {
    && (forall i :: i in b.closable || i in held ==> i < b.next)
    && b.closed == multiset(b.closable - held)
  }

  /** The runtimes of `m` come from different Prepare calls, and their stores belong to them alone. */
  ghost predicate Owned(b: Books, m: Runtimes) {
    && (forall k :: k in m ==> m[k].id < b.next && (m[k].closable <==> m[k].id in b.closable))
    && (forall k :: k in m ==> m[k].spec.store == None || m[k].spec.store == Some(m[k].id))
    && (forall k, l :: k in m && l in m && m[k].id == m[l].id ==> k == l)
  }

  // ------------------------------------------------------------- closing

  function ClosePreparedRuntime(b: Books, p: Prepared): Books {
    if p.closable then b.(closed := b.closed + multiset{p.id}) else b
  }

  lemma CloseOne(b: Books, p: Prepared, held: set<nat>)
    requires Balanced(b, held) && p.id in held && (p.closable <==> p.id in b.closable)
    ensures Balanced(ClosePreparedRuntime(b, p), held - {p.id})
  {
    if p.closable {
      assert b.closable - (held - {p.id}) == (b.closable - held) + {p.id};
    } else {
      assert b.closable - (held - {p.id}) == b.closable - held;
    }
  }

  /** One more runtime of an owned map, beside those of `done`. */
  lemma CloseStep(b0: Books, b: Books, m: Runtimes, done: set<string>, k: string, held: set<nat>)
    requires Owned(b0, m) && Ids(m) <= held && done <= m.Keys && k in m && k !in done
    requires Balanced(b, held - IdsOf(m, done)) && b.next == b0.next && b.closable == b0.closable
    ensures Balanced(ClosePreparedRuntime(b, m[k]), held - IdsOf(m, done + {k}))
  {
    hide Balanced;
    assert m[k].id in Ids(m) && m[k].id !in IdsOf(m, done);
    CloseOne(b, m[k], held - IdsOf(m, done));
    assert IdsOf(m, done + {k}) == IdsOf(m, done) + {m[k].id};
    assert held - IdsOf(m, done) - {m[k].id} == held - IdsOf(m, done + {k});
  }

  lemma NothingClosed(m: Runtimes, held: set<nat>)
    ensures held - IdsOf(m, {}) == held && IdsOf(m, m.Keys) == Ids(m)
  {
  }

  /** Closing a whole map closes each of its runtimes once.  None of them may be published. */
  method ClosePreparedRuntimes(b: Books, m: Runtimes, ghost held: set<nat>, ghost published: set<nat>) returns (b': Books)
    requires Balanced(b, held) && Owned(b, m) && Ids(m) <= held && Ids(m) !! published
    ensures Balanced(b', held - Ids(m)) && b'.next == b.next && b'.closable == b.closable
  {
    hide Balanced, Owned, IdsOf, Ids;
    b' := b;
    var left := m.Keys;
    ghost var done: set<string> := {};
    NothingClosed(m, held);
    while left != {}
      invariant left <= m.Keys && done == m.Keys - left
      invariant Balanced(b', held - IdsOf(m, done)) && b'.next == b.next && b'.closable == b.closable
      decreases |left|
    {
      var k :| k in left;
      CloseStep(b, b', m, done, k, held);
      b' := ClosePreparedRuntime(b', m[k]);
      left, done := left - {k}, done + {k};
    }
    assert done == m.Keys;
  }

  /** After `next` replaced `previous`: an export whose backing store was kept stays open, every other old one is closed. */
  method CloseReplacedRuntimes(b: Books, previous: Runtimes, next: Runtimes, ghost held: set<nat>, ghost published: set<nat>)
    returns (b': Books)
    requires Balanced(b, held) && Owned(b, previous) && Ids(previous) <= held
    requires IdsOf(previous, Replaced(previous, next)) !! published
    ensures Balanced(b', held - IdsOf(previous, Replaced(previous, next)))
    ensures b'.next == b.next && b'.closable == b.closable
  {
    hide Balanced, Owned, IdsOf, Ids;
    b' := b;
    var left := previous.Keys;
    ghost var done: set<string> := {};
    NothingClosed(previous, held);
    while left != {}
      invariant left <= previous.Keys && done == Replaced(previous, next) - left
      invariant Balanced(b', held - IdsOf(previous, done)) && b'.next == b.next && b'.closable == b.closable
      decreases |left|
    {
      var k :| k in left;
      left := left - {k};
      if !Retained(previous, next, k) {
        CloseStep(b, b', previous, done, k, held);
        b' := ClosePreparedRuntime(b', previous[k]);
        done := done + {k};
      }
    }
    assert done == Replaced(previous, next);
  }

  function Replaced(previous: Runtimes, next: Runtimes): set<string> {
    set k | k in previous && !Retained(previous, next, k)
  }

  predicate Retained(previous: Runtimes, next: Runtimes, k: string)
    requires k in previous
  {
    k in next && next[k].spec.store == previous[k].spec.store
  }

  // ------------------------------------------------------------- preparing

  /** What a preparer answers: an error, or a spec with or without a backing store of its own and a Close. */
  datatype PrepareReply = PrepareFailed | Opened(spec: Spec, hasStore: bool, closable: bool)

  /** A preparer, given the registry state and the ordinal of the call. */
  type Preparer = (ExportState, nat) -> PrepareReply

  predicate Matches(state: ExportState, spec: Spec) {
    && spec.exportID == state.exportID && spec.volumeID == state.volumeID
    && spec.targetIQN == state.targetIQN && spec.lunID == state.lunID && spec.lunWWN == state.lunWWN
    && spec.leaseID == state.leaseID && spec.epoch == state.epoch
  }

  /** The preparer's n-th call fails for this state, or returns a runtime for something else. */
  predicate Unusable(prepare: Preparer, state: ExportState, n: nat) {
    var reply := prepare(state, n);
    reply.PrepareFailed? || !Matches(state, reply.spec)
  }

  /** One Prepare call with its validation; a runtime that does not match is closed at once. */
  method PrepareOne(prepare: Preparer, state: ExportState, b: Books, ghost held: set<nat>)
    returns (p: Option<Prepared>, b': Books)
    requires Balanced(b, held)
    ensures b'.next == b.next + 1 && b.closable <= b'.closable <= b.closable + {b.next}
    ensures p.None? <==> Unusable(prepare, state, b.next)
    ensures p.None? ==> Balanced(b', held)
    ensures p.Some? ==>
      && Balanced(b', held + {b.next}) && p.value.id == b.next && p.value.state == state && Matches(state, p.value.spec)
      && (p.value.closable <==> b.next in b'.closable)
      && (p.value.spec.store == None || p.value.spec.store == Some(b.next))
  {
    var reply := prepare(state, b.next);
    if reply.PrepareFailed? {
      return None, b.(next := b.next + 1);
    }
    var spec := reply.spec.(store := if reply.hasStore then Some(b.next) else None);
    var runtime := Prepared(b.next, state, spec, reply.closable);
    b' := b.(next := b.next + 1, closable := if reply.closable then b.closable + {b.next} else b.closable);
    assert b'.closable - (held + {b.next}) == b.closable - held;
    if !Matches(state, spec) {
      CloseOne(b', runtime, held + {b.next});
      assert held + {b.next} - {b.next} == held;
      return None, ClosePreparedRuntime(b', runtime);
    }
    p := Some(runtime);
  }

  function States(m: Runtimes): Exports {
    map k | k in m :: m[k].state
  }

  /** Why staging stopped. */
  datatype Fault = NoFault | BadChange | PrepareRefused

  /** Newly prepared runtimes: from Prepare calls `from`.., each matching its state. */
  ghost predicate NewlyPrepared(b: Books, from: nat, m: Runtimes) {
    && Owned(b, m)
    && (forall k :: k in m ==> from <= m[k].id && Matches(m[k].state, m[k].spec))
  }

  lemma AddPrepared(b: Books, b': Books, from: nat, m: Runtimes, k: string, p: Prepared)
    requires NewlyPrepared(b, from, m) && k !in m && from <= b.next && b'.next == b.next + 1
    requires b.closable <= b'.closable <= b.closable + {b.next}
    requires p.id == b.next && Matches(p.state, p.spec) && (p.closable <==> b.next in b'.closable)
    requires p.spec.store == None || p.spec.store == Some(b.next)
    ensures NewlyPrepared(b', from, m[k := p]) && Ids(m[k := p]) == Ids(m) + {p.id}
  {
    hide Matches;
    var m' := m[k := p];
    assert m'[k].id in Ids(m');
    forall i | i in Ids(m)
      ensures i in Ids(m')
    {
      var l :| l in m && m[l].id == i;
      assert m'[l].id == i;
    }
  }

  lemma StillPrepared(b: Books, b': Books, from: nat, m: Runtimes)
    requires NewlyPrepared(b, from, m) && b'.next == b.next + 1 && b.closable <= b'.closable <= b.closable + {b.next}
    ensures NewlyPrepared(b', from, m)
  {
    hide Matches;
  }

  /** The books went on from `b0` without rewriting what was known of earlier Prepare calls. */
  ghost predicate Continues(b0: Books, b: Books) {
    b0.next <= b.next && forall i :: i < b0.next ==> (i in b.closable <==> i in b0.closable)
  }

  /** In the middle of a round that began with books `b0` and open runtimes `held`. */
  ghost predicate Staging(b0: Books, b: Books, held: set<nat>, staged: Runtimes) {
    && Continues(b0, b) && NewlyPrepared(b, b0.next, staged) && Balanced(b, held + Ids(staged))
    && (forall i :: i in held ==> i < b0.next)
  }

  lemma StagingStarts(b: Books, held: set<nat>)
    requires Balanced(b, held)
    ensures Staging(b, b, held, map[])
  {
    assert held + Ids(map[]) == held;
  }

  /** Giving up: only what this round prepared is closed. */
  method CloseStaged(b0: Books, b: Books, staged: Runtimes, ghost held: set<nat>, ghost published: set<nat>) returns (b': Books)
    requires Staging(b0, b, held, staged) && published <= held
    ensures Balanced(b', held) && Continues(b0, b') && b'.next == b.next
  {
    hide Balanced, Matches;
    b' := ClosePreparedRuntimes(b, staged, held + Ids(staged), published);
    assert held + Ids(staged) - Ids(staged) == held;
  }

  /** Prepare one more export of a round, or give the round up. */
  method PrepareInto(prepare: Preparer, state: ExportState, b0: Books, b: Books, staged: Runtimes, k: string,
                     ghost held: set<nat>, ghost published: set<nat>)
    returns (p: Option<Prepared>, b': Books)
    requires Staging(b0, b, held, staged) && k !in staged && published <= held
    ensures b'.next == b.next + 1 && Continues(b0, b')
    ensures p.None? ==> Unusable(prepare, state, b.next) && Balanced(b', held)
    ensures p.Some? ==> Staging(b0, b', held, staged[k := p.value]) && p.value.state == state
  {
    hide Balanced, Matches, Unusable, NewlyPrepared;
    p, b' := PrepareOne(prepare, state, b, held + Ids(staged));
    if p.None? {
      StillPrepared(b, b', b0.next, staged);
      b' := CloseStaged(b0, b', staged, held, published);
    } else {
      AddPrepared(b, b', b0.next, staged, k, p.value);
      assert held + Ids(staged) + {b.next} == held + (Ids(staged) + {b.next});
    }
  }

  /** A change the loop can act on. */
  predicate Processable(c: Change) {
    c.operation == "delete" || (c.operation == "upsert" && c.view.Some?)
  }

  /** The exports whose change makes this gateway (re)prepare them. */
  function Prepares(changes: map<string, Change>, gateway: string): set<string> {
    set k | k in changes && Keeps(changes[k], gateway)
  }

  /** The serving map with the exports of `done` replaced by what was staged for them. */
  function Overlay(current: Runtimes, done: set<string>, staged: Runtimes): Runtimes {
    (current - done) + staged
  }

  /** What is staged once the changes of `done` were acted on. */
  ghost predicate ActedOn(changes: map<string, Change>, gateway: string, done: set<string>, staged: Runtimes) {
    && done <= changes.Keys
    && (forall k :: k in staged <==> k in done && Keeps(changes[k], gateway))
    && (forall k :: k in staged ==> staged[k].state == Normalize(changes[k].view.value))
    && (forall k :: k in done ==> Processable(changes[k]))
  }

  /**
   The loop of applyChanges over the collapsed changes, in any order.  It edits a
   clone of the serving map; on any fault it closes what it had prepared.
   */
  method StageChanges(current: Runtimes, changes: map<string, Change>, gateway: string, prepare: Preparer, b: Books,
                      ghost published: set<nat>)
    returns (fault: Fault, next: Runtimes, staged: Runtimes, b': Books)
    requires Balanced(b, Ids(current)) && published <= Ids(current)
    ensures Continues(b, b')
    ensures fault == NoFault ==>
      && next == Overlay(current, changes.Keys, staged) && ActedOn(changes, gateway, changes.Keys, staged)
      && Staging(b, b', Ids(current), staged)
    ensures fault != NoFault ==> Balanced(b', Ids(current))
    ensures fault == BadChange ==> exists k :: k in changes && !Processable(changes[k])
    ensures fault == PrepareRefused ==>
      exists k, n :: b.next <= n < b'.next && k in Prepares(changes, gateway) && Unusable(prepare, Normalize(changes[k].view.value), n)
  {
    hide Balanced, Unusable, AssignedTo, Normalize, Staging, Ids, ActedOn, Continues, Overlay;
    next, staged, b' := current, map[], b;
    var left := changes.Keys;
    ghost var done: set<string> := {};
    StagingStarts(b, Ids(current));
    NothingActedOn(changes, gateway, current);
    while left != {}
      invariant left <= changes.Keys && done == changes.Keys - left
      invariant next == Overlay(current, done, staged) && ActedOn(changes, gateway, done, staged)
      invariant Staging(b, b', Ids(current), staged)
      decreases |left|
    {
      var k :| k in left;
      var c := changes[k];
      ActOnOne(changes, gateway, done, staged, k);
      OverlayOne(current, done, staged, k);
      StagedContinues(b, b', Ids(current), staged);
      ghost var acted := done;
      left, done := left - {k}, done + {k};
      if c.operation == "delete" {
        next := next - {k};
      } else if c.operation == "upsert" && c.view.Some? {
        var state := Normalize(c.view.value);
        if !AssignedTo(state, gateway) {
          next := next - {k};
          continue;
        }
        assert k in Prepares(changes, gateway);
        var p: Option<Prepared>;
        p, b' := PrepareInto(prepare, state, b, b', staged, k, Ids(current), published);
        if p.None? {
          return PrepareRefused, next, staged, b';
        }
        OverlayStaged(current, acted, staged, k, p.value);
        staged, next := staged[k := p.value], next[k := p.value];
      } else {
        b' := CloseStaged(b, b', staged, Ids(current), published);
        return BadChange, next, staged, b';
      }
    }
    StagedContinues(b, b', Ids(current), staged);
    assert done == changes.Keys;
    fault := NoFault;
  }

  lemma StagedContinues(b0: Books, b: Books, held: set<nat>, staged: Runtimes)
    requires Staging(b0, b, held, staged)
    ensures Continues(b0, b) && b0.next <= b.next
  {
  }

  lemma NothingActedOn(changes: map<string, Change>, gateway: string, current: Runtimes)
    ensures ActedOn(changes, gateway, {}, map[]) && Overlay(current, {}, map[]) == current
  {
  }

  lemma OverlayOne(current: Runtimes, done: set<string>, staged: Runtimes, k: string)
    requires k !in staged
    ensures Overlay(current, done + {k}, staged) == Overlay(current, done, staged) - {k}
  {
  }

  lemma OverlayStaged(current: Runtimes, done: set<string>, staged: Runtimes, k: string, p: Prepared)
    ensures Overlay(current, done + {k}, staged[k := p]) == Overlay(current, done, staged)[k := p]
  {
  }

  /** Acting on one more change. */
  lemma ActOnOne(changes: map<string, Change>, gateway: string, done: set<string>, staged: Runtimes, k: string)
    requires ActedOn(changes, gateway, done, staged) && k in changes && k !in done
    ensures k !in staged
    ensures Processable(changes[k]) && !Keeps(changes[k], gateway) ==> ActedOn(changes, gateway, done + {k}, staged)
    ensures forall p: Prepared :: Keeps(changes[k], gateway) && p.state == Normalize(changes[k].view.value) ==>
      ActedOn(changes, gateway, done + {k}, staged[k := p])
  {
    hide Normalize, AssignedTo;
  }

  /** The loop of applyResync: every selected export is prepared anew, in any order. */
  method StageSnapshot(exports: Exports, prepare: Preparer, b: Books, ghost current: Runtimes, ghost published: set<nat>)
    returns (fault: Fault, staged: Runtimes, b': Books)
    requires Balanced(b, Ids(current)) && published <= Ids(current)
    ensures Continues(b, b')
    ensures fault == NoFault ==> States(staged) == exports && Staging(b, b', Ids(current), staged)
    ensures fault != NoFault ==> fault == PrepareRefused && Balanced(b', Ids(current))
    ensures fault == PrepareRefused ==>
      exists k, n :: b.next <= n < b'.next && k in exports && Unusable(prepare, exports[k], n)
  {
    hide Balanced, Unusable, Staging, Ids, Continues;
    staged, b' := map[], b;
    var left := exports.Keys;
    StagingStarts(b, Ids(current));
    while left != {}
      invariant left <= exports.Keys && staged.Keys == exports.Keys - left
      invariant forall k :: k in staged ==> staged[k].state == exports[k]
      invariant Staging(b, b', Ids(current), staged)
      decreases |left|
    {
      var k :| k in left;
      left := left - {k};
      StagedContinues(b, b', Ids(current), staged);
      var p: Option<Prepared>;
      p, b' := PrepareInto(prepare, exports[k], b, b', staged, k, Ids(current), published);
      if p.None? {
        return PrepareRefused, staged, b';
      }
      staged := staged[k := p.value];
    }
    StagedContinues(b, b', Ids(current), staged);
    assert States(staged).Keys == exports.Keys;
    fault := NoFault;
  }
}
