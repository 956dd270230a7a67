/** The serving checkpoint of a gateway (iscsi/reload_budget.go). */
module ReloadBudget {
  import opened Words

  datatype Outcome = ApplyNewer | SkipUnchanged | RejectStale

  /** What is being served, and the counters beside it. */
  class ReloadState {
    var appliedRevision: U64
    var appliedGeneration: U64
    var reloads: nat
    var skipped: nat
    var rejectedStale: nat
    var fetches: nat

    constructor ()
      ensures appliedRevision == appliedGeneration == 0
      ensures reloads == skipped == rejectedStale == fetches == 0
    {
      appliedRevision, appliedGeneration, reloads, skipped, rejectedStale, fetches := 0, 0, 0, 0, 0, 0;
    }

    /** Comparing a response with what is served never moves the checkpoint. */
    method Decide(revision: U64, generation: U64) returns (outcome: Outcome)
      modifies this`fetches, this`skipped, this`rejectedStale
      ensures outcome == ApplyNewer <==> Later((appliedRevision, appliedGeneration), (revision, generation))
      ensures outcome == SkipUnchanged <==> (revision, generation) == (appliedRevision, appliedGeneration)
      ensures fetches == old(fetches) + 1
      ensures skipped == old(skipped) + (if outcome == SkipUnchanged then 1 else 0)
      ensures rejectedStale == old(rejectedStale) + (if outcome == RejectStale then 1 else 0)
    {
      fetches := fetches + 1;
      if revision < appliedRevision {
        rejectedStale := rejectedStale + 1;
        return RejectStale;
      }
      if revision == appliedRevision && generation == appliedGeneration {
        skipped := skipped + 1;
        return SkipUnchanged;
      }
      if revision == appliedRevision && generation < appliedGeneration {
        rejectedStale := rejectedStale + 1;
        return RejectStale;
      }
      outcome := ApplyNewer;
    }

    method Applied(revision: U64, generation: U64)
      modifies this`appliedRevision, this`appliedGeneration, this`reloads
      ensures appliedRevision == revision && appliedGeneration == generation && reloads == old(reloads) + 1
    {
      appliedRevision, appliedGeneration := revision, generation;
      reloads := reloads + 1;
    }
  }

  /** `b` is a strictly later checkpoint than `a`: revision first, generation second. */
  predicate Later(a: (int, int), b: (int, int)) {
    a.0 < b.0 || (a.0 == b.0 && a.1 < b.1)
  }
}
