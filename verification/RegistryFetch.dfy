/**
 Paged fetches of the live reloader (iscsi/live_reload.go): the changed-set and
 the full snapshot.  A source is a finite sequence of replies; running out of
 replies is a source error.
 */
module RegistryFetch {
  import opened Words
  import opened Registry

  const PAGE_SIZE: nat := 128

  // ------------------------------------------------------------- changed set

  datatype ChangeReply =
    | ChangeError
    | ChangePage(from: U64, to: U64, generation: U64, changes: seq<Change>, nextToken: string, checkpoint: U64, resync: bool)

  datatype Fetched =
    | FetchFailed
    | FetchStale(to: U64, generation: U64)
    | ResyncNeeded(generation: U64)
    | Changes(changes: seq<Change>, checkpoint: U64, generation: U64)

  predicate ChangeInPage(c: Change, after: U64, to: U64, generation: U64) {
    after < c.revision <= to && (c.generation == 0 || c.generation <= generation)
  }

  /** The state of the paging loop after accepting the pages so far. */
  datatype Cursor = Cursor(first: bool, lastTo: U64, generation: U64, changes: seq<Change>)

  /** Every reason to give up on a page, in the source's order; None when the page is fine. */
  function PageFault(after: U64, cur: Cursor, p: ChangeReply): Option<Fetched>
    requires p.ChangePage?
  {
    var generation := if cur.first then p.generation else cur.generation;
    if |p.changes| > PAGE_SIZE then Some(FetchFailed)
    else if p.to < after then Some(FetchStale(p.to, p.generation))
    else if p.from != after || p.generation != generation || p.to < cur.lastTo then Some(FetchFailed)
    else if exists c :: c in p.changes && !ChangeInPage(c, after, p.to, generation) then Some(FetchFailed)
    else if p.resync then Some(if p.nextToken != "" || p.changes != [] then FetchFailed else ResyncNeeded(generation))
    else if p.nextToken == "" && p.checkpoint != p.to then Some(FetchFailed)
    else if p.nextToken != "" && p.checkpoint != 0 then Some(FetchFailed)
    else None
  }

  function FetchFrom(after: U64, replies: seq<ChangeReply>, cur: Cursor): Fetched
    decreases |replies|
  {
    if replies == [] || replies[0].ChangeError? then FetchFailed
    else
      var p := replies[0];
      var fault := PageFault(after, cur, p);
      if fault.Some? then fault.value
      else
        var cur' := Cursor(false, p.to, p.generation, cur.changes + p.changes);
        if p.nextToken == "" then Changes(cur'.changes, p.checkpoint, p.generation)
        else FetchFrom(after, replies[1..], cur')
  }

  function StartCursor(after: U64): Cursor {
    Cursor(true, after, 0, [])
  }

  function Fetch(after: U64, replies: seq<ChangeReply>): Fetched {
    FetchFrom(after, replies, StartCursor(after))
  }

  /** The source's paging loop. */
  method FetchChanges(after: U64, replies: seq<ChangeReply>) returns (r: Fetched, pages: nat)
    ensures r == Fetch(after, replies)
    ensures pages <= |replies|
  {
    var cur := StartCursor(after);
    pages := 0;
    while pages < |replies|
      invariant pages <= |replies| && FetchFrom(after, replies[pages..], cur) == Fetch(after, replies)
    {
      var p := replies[pages];
      if p.ChangeError? {
        return FetchFailed, pages;
      }
      pages := pages + 1;
      assert replies[pages - 1..][1..] == replies[pages..];
      var fault := PageFault(after, cur, p);
      if fault.Some? {
        return fault.value, pages;
      }
      cur := Cursor(false, p.to, p.generation, cur.changes + p.changes);
      if p.nextToken == "" {
        return Changes(cur.changes, p.checkpoint, p.generation), pages;
      }
    }
    r := FetchFailed;
  }

  /** For any source: what is accepted lies in (after, checkpoint], and the checkpoint never lies behind. */
  lemma {:induction false} FetchInRange(after: U64, replies: seq<ChangeReply>, cur: Cursor)
    requires after <= cur.lastTo && forall c :: c in cur.changes ==> after < c.revision <= cur.lastTo
    ensures
      var r := FetchFrom(after, replies, cur);
      r.Changes? ==> after <= r.checkpoint && forall c :: c in r.changes ==> after < c.revision <= r.checkpoint
    decreases |replies|
  {
    if replies != [] && replies[0].ChangePage? && PageFault(after, cur, replies[0]).None? {
      var p := replies[0];
      FetchInRange(after, replies[1..], Cursor(false, p.to, p.generation, cur.changes + p.changes));
    }
  }

  /** What the pages up to the first one without a next token carry, and the revision they end at; a resync page carries nothing. */
  function Delivered(replies: seq<ChangeReply>): Option<(seq<Change>, U64)>
    decreases |replies|
  {
    if replies == [] || replies[0].ChangeError? || replies[0].resync then None
    else if replies[0].nextToken == "" then Some((replies[0].changes, replies[0].to))
    else
      var rest := Delivered(replies[1..]);
      if rest.None? then None else Some((replies[0].changes + rest.value.0, rest.value.1))
  }

  lemma {:induction false} FetchDelivers(after: U64, replies: seq<ChangeReply>, cur: Cursor)
    ensures
      var r := FetchFrom(after, replies, cur);
      r.Changes? ==> Delivered(replies) .Some? && r.changes == cur.changes + Delivered(replies).value.0
                     && r.checkpoint == Delivered(replies).value.1
    decreases |replies|
  {
    if replies != [] && replies[0].ChangePage? && PageFault(after, cur, replies[0]).None? && replies[0].nextToken != "" {
      var p := replies[0];
      FetchDelivers(after, replies[1..], Cursor(false, p.to, p.generation, cur.changes + p.changes));
    }
  }

  /** The source returns exactly the log entries in (after, to], in order, however it pages them. */
  predicate FaithfulChanges(log: seq<Change>, after: U64, replies: seq<ChangeReply>) {
    var d := Delivered(replies);
    d.Some? ==> d.value.0 == Between(log, after, d.value.1)
  }

  /** A resync request claims nothing about the log, whatever revision it names. */
  lemma ResyncPageFaithful(log: seq<Change>, after: U64, page: ChangeReply, rest: seq<ChangeReply>)
    requires page.ChangePage? && page.resync
    ensures FaithfulChanges(log, after, [page] + rest)
  {
  }

  lemma FetchFaithful(log: seq<Change>, after: U64, replies: seq<ChangeReply>)
    requires FaithfulChanges(log, after, replies)
    ensures
      var r := Fetch(after, replies);
      r.Changes? ==> after <= r.checkpoint && r.changes == Between(log, after, r.checkpoint)
  {
    FetchInRange(after, replies, StartCursor(after));
    FetchDelivers(after, replies, StartCursor(after));
  }

  // ------------------------------------------------------------- snapshot

  datatype SnapshotReply =
    | SnapshotError
    | SnapshotPage(revision: U64, generation: U64, exports: seq<ExportState>, nextToken: string)

  datatype Snapshot = SnapshotFailed | Snapshot(exports: Exports, revision: U64, generation: U64)

  /** The exports of one page added to those selected so far; None on a missing or repeated id or past the cap. */
  function Select(acc: Exports, page: seq<ExportState>, gateway: string, cap: nat): Option<Exports>
    decreases |page|
  {
    if page == [] then Some(acc)
    else
      var state := Normalize(page[0]);
      if !AssignedTo(state, gateway) then Select(acc, page[1..], gateway, cap)
      else if state.exportID == "" || state.exportID in acc || |acc[state.exportID := state]| > cap then None
      else Select(acc[state.exportID := state], page[1..], gateway, cap)
  }

  datatype SnapshotCursor = SnapshotCursor(first: bool, revision: U64, generation: U64, exports: Exports)

  function SnapshotFrom(replies: seq<SnapshotReply>, gateway: string, cap: nat, cur: SnapshotCursor): Snapshot
    decreases |replies|
  {
    if replies == [] || replies[0].SnapshotError? then SnapshotFailed
    else
      var p := replies[0];
      if |p.exports| > PAGE_SIZE || (!cur.first && (p.revision != cur.revision || p.generation != cur.generation)) then SnapshotFailed
      else
        var acc := Select(cur.exports, p.exports, gateway, cap);
        if acc.None? then SnapshotFailed
        else if p.nextToken == "" then Snapshot(acc.value, p.revision, p.generation)
        else SnapshotFrom(replies[1..], gateway, cap, SnapshotCursor(false, p.revision, p.generation, acc.value))
  }

  function FetchSnapshot(replies: seq<SnapshotReply>, gateway: string, cap: nat): Snapshot {
    SnapshotFrom(replies, gateway, cap, SnapshotCursor(true, 0, 0, map[]))
  }

  /** The source's two nested loops. */
  method FetchSnapshotPages(replies: seq<SnapshotReply>, gateway: string, cap: nat) returns (r: Snapshot)
    ensures r == FetchSnapshot(replies, gateway, cap)
  {
    var cur := SnapshotCursor(true, 0, 0, map[]);
    var pages := 0;
    while pages < |replies|
      invariant pages <= |replies|
      invariant SnapshotFrom(replies[pages..], gateway, cap, cur) == FetchSnapshot(replies, gateway, cap)
    {
      var p := replies[pages];
      if p.SnapshotError? {
        return SnapshotFailed;
      }
      pages := pages + 1;
      assert replies[pages - 1..][1..] == replies[pages..];
      if |p.exports| > PAGE_SIZE || (!cur.first && (p.revision != cur.revision || p.generation != cur.generation)) {
        return SnapshotFailed;
      }
      var exports := cur.exports;
      for i := 0 to |p.exports|
        invariant Select(exports, p.exports[i..], gateway, cap) == Select(cur.exports, p.exports, gateway, cap)
      {
        assert p.exports[i..][1..] == p.exports[i + 1..];
        var state := Normalize(p.exports[i]);
        if !AssignedTo(state, gateway) {
          continue;
        }
        if state.exportID == "" || state.exportID in exports {
          return SnapshotFailed;
        }
        exports := exports[state.exportID := state];
        if |exports| > cap {
          return SnapshotFailed;
        }
      }
      cur := SnapshotCursor(false, p.revision, p.generation, exports);
      if p.nextToken == "" {
        return Snapshot(exports, p.revision, p.generation);
      }
    }
    r := SnapshotFailed;
  }

  /** `exports` are exactly the assigned ones of `listed`, on top of `before`. */
  ghost predicate Selected(before: Exports, listed: seq<ExportState>, exports: Exports, gateway: string) {
    && (forall e :: e in listed && AssignedTo(Normalize(e), gateway) ==>
          Normalize(e).exportID in exports && exports[Normalize(e).exportID] == Normalize(e))
    && (forall id :: id in before ==> id in exports && exports[id] == before[id])
    && (forall id :: id in exports && id !in before ==>
          exists e :: e in listed && AssignedTo(Normalize(e), gateway) && exports[id] == Normalize(e) && id == Normalize(e).exportID)
  }

  lemma {:induction false} SelectCorrect(acc: Exports, page: seq<ExportState>, gateway: string, cap: nat)
    requires |acc| <= cap
    ensures
      var r := Select(acc, page, gateway, cap);
      r.Some? ==> |r.value| <= cap && Selected(acc, page, r.value, gateway)
    decreases |page|
  {
    hide AssignedTo, Normalize, Selected;
    if page == [] {
      SelectNothing(acc, gateway);
    } else {
      var state := Normalize(page[0]);
      var acc' := if AssignedTo(state, gateway) then acc[state.exportID := state] else acc;
      if Select(acc, page, gateway, cap).Some? {
        SelectCorrect(acc', page[1..], gateway, cap);
        SelectOne(acc, page[0], gateway);
        SelectedConcat(acc, acc', Select(acc, page, gateway, cap).value, [page[0]], page[1..], gateway);
        assert [page[0]] + page[1..] == page;
      }
    }
  }

  lemma SelectNothing(acc: Exports, gateway: string)
    ensures Selected(acc, [], acc, gateway)
  {
  }

  lemma SelectOne(acc: Exports, e: ExportState, gateway: string)
    requires AssignedTo(Normalize(e), gateway) ==> Normalize(e).exportID !in acc
    ensures
      var state := Normalize(e);
      Selected(acc, [e], if AssignedTo(state, gateway) then acc[state.exportID := state] else acc, gateway)
  {
    hide AssignedTo, Normalize;
    assert e in [e];
  }

  lemma SelectedConcat(a: Exports, b: Exports, c: Exports, p: seq<ExportState>, q: seq<ExportState>, gateway: string)
    requires Selected(a, p, b, gateway) && Selected(b, q, c, gateway)
    ensures Selected(a, p + q, c, gateway)
  {
    hide AssignedTo, Normalize;
    forall id | id in c && id !in a
      ensures exists e :: e in p + q && AssignedTo(Normalize(e), gateway) && c[id] == Normalize(e) && id == Normalize(e).exportID
    {
      if id in b {
        var e :| e in p && AssignedTo(Normalize(e), gateway) && b[id] == Normalize(e) && id == Normalize(e).exportID;
        assert e in p + q;
      } else {
        var e :| e in q && AssignedTo(Normalize(e), gateway) && c[id] == Normalize(e) && id == Normalize(e).exportID;
        assert e in p + q;
      }
    }
  }

  /** What the snapshot pages up to the first one without a next token list, and at which revision. */
  function Listed(replies: seq<SnapshotReply>): Option<(seq<ExportState>, U64)>
    decreases |replies|
  {
    if replies == [] || replies[0].SnapshotError? then None
    else if replies[0].nextToken == "" then Some((replies[0].exports, replies[0].revision))
    else
      var rest := Listed(replies[1..]);
      if rest.None? then None else Some((replies[0].exports + rest.value.0, rest.value.1))
  }

  lemma {:induction false} SnapshotSelects(replies: seq<SnapshotReply>, gateway: string, cap: nat, cur: SnapshotCursor)
    requires |cur.exports| <= cap
    ensures
      var r := SnapshotFrom(replies, gateway, cap, cur);
      r.Snapshot? ==>
        && Listed(replies).Some? && |r.exports| <= cap && r.revision == Listed(replies).value.1
        && Selected(cur.exports, Listed(replies).value.0, r.exports, gateway)
    decreases |replies|
  {
    hide Selected, Select;
    var r := SnapshotFrom(replies, gateway, cap, cur);
    if r.Snapshot? {
      var p := replies[0];
      var acc := Select(cur.exports, p.exports, gateway, cap).value;
      SelectCorrect(cur.exports, p.exports, gateway, cap);
      if p.nextToken != "" {
        SnapshotSelects(replies[1..], gateway, cap, SnapshotCursor(false, p.revision, p.generation, acc));
        SelectedConcat(cur.exports, acc, r.exports, p.exports, Listed(replies[1..]).value.0, gateway);
      }
    }
  }

  /** The source lists exactly the registry at the revision it names. */
  ghost predicate FaithfulSnapshot(log: seq<Change>, replies: seq<SnapshotReply>) {
    var d := Listed(replies);
    d.Some? ==> Lists(d.value.0, At(log, d.value.1))
  }

  /** A resync from a faithful source selects exactly the served part of the registry at its revision. */
  lemma SnapshotFaithful(log: seq<Change>, replies: seq<SnapshotReply>, gateway: string, cap: nat)
    requires ValidLog(log) && FaithfulSnapshot(log, replies)
    ensures
      var r := FetchSnapshot(replies, gateway, cap);
      r.Snapshot? ==> r.exports == Served(At(log, r.revision), gateway)
  {
    var r := FetchSnapshot(replies, gateway, cap);
    if r.Snapshot? {
      SnapshotSelects(replies, gateway, cap, SnapshotCursor(true, 0, 0, map[]));
      AtKeyed(log, r.revision);
      SelectedIsServed(At(log, r.revision), Listed(replies).value.0, r.exports, gateway);
    }
  }

  /** `listed` is a list of the exports of `reg`. */
  ghost predicate Lists(listed: seq<ExportState>, reg: Exports) {
    && (forall e :: e in listed ==> Normalize(e).exportID in reg && reg[Normalize(e).exportID] == Normalize(e))
    && (forall id :: id in reg ==> exists e :: e in listed && Normalize(e) == reg[id])
  }

  lemma SelectedIsServed(reg: Exports, listed: seq<ExportState>, exports: Exports, gateway: string)
    requires Lists(listed, reg) && Selected(map[], listed, exports, gateway)
    requires forall id :: id in reg ==> reg[id].exportID == id
    ensures exports == Served(reg, gateway)
  {
    hide AssignedTo, Normalize;
    var s := Served(reg, gateway);
    forall id | id in exports
      ensures id in s && s[id] == exports[id]
    {
      var e :| e in listed && AssignedTo(Normalize(e), gateway) && exports[id] == Normalize(e) && id == Normalize(e).exportID;
    }
    forall id | id in s
      ensures id in exports
    {
      var e :| e in listed && Normalize(e) == reg[id];
    }
  }

  /** Every export of a registry is stored under its own id. */
  lemma AtKeyed(log: seq<Change>, revision: int)
    requires ValidLog(log)
    ensures forall id :: id in At(log, revision) ==> At(log, revision)[id].exportID == id
  {
    BetweenIsPart(log, 0, revision);
    ReplayKeyed(Between(log, 0, revision));
  }

  lemma {:induction false} BetweenIsPart(log: seq<Change>, lo: int, hi: int)
    ensures forall c :: c in Between(log, lo, hi) ==> c in log
    decreases |log|
  {
    if log != [] {
      BetweenIsPart(log[..|log| - 1], lo, hi);
    }
  }

  lemma {:induction false} ReplayKeyed(changes: seq<Change>)
    requires forall c :: c in changes ==> WellFormed(c)
    ensures forall id :: id in Replay(map[], changes) ==> Replay(map[], changes)[id].exportID == id
    decreases |changes|
  {
    if changes != [] {
      assert changes[|changes| - 1] in changes;
      ReplayKeyed(changes[..|changes| - 1]);
    }
  }
}
