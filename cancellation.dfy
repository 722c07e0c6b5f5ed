/** The map from project-run id to cancel flag (daemon/src/main.rs,
    `AppState::cancel_map`, the `analyzeProject` registration and the `cancel`
    request).  The shared atomic flags become plain booleans. */
module Cancellation {
  import opened Wrappers

  /** The run id that stands for every run. */
  const AllRuns: string := "*"

  /** The flags after a `cancel` request whose `runId` parameter is `runId`
      (`None` when it is missing or not a string). */
  function CancelFlags(flags: map<string, bool>, runId: Option<string>): (r: map<string, bool>)
    ensures r.Keys == flags.Keys
    ensures runId == Some(AllRuns) ==> forall k :: k in r ==> r[k]
    ensures runId.Some? && runId.value != AllRuns ==>
      forall k :: k in r ==> r[k] == (flags[k] || k == runId.value)
    ensures runId.None? ==> r == flags
  {
    match runId
    case None => flags
    case Some(id) =>
      if id == AllRuns then map k | k in flags :: true
      else if id in flags then flags[id := true]
      else flags
  }

  /** A flag, once set, stays set. */
  lemma CancelKeepsSetFlags(flags: map<string, bool>, runId: Option<string>)
    ensures forall k :: k in flags && flags[k] ==> CancelFlags(flags, runId)[k]
  {
  }

  /** An id that names no run changes nothing. */
  lemma CancelUnknownIsNoOp(flags: map<string, bool>, id: string)
    requires id != AllRuns && id !in flags
    ensures CancelFlags(flags, Some(id)) == flags
  {
  }

  /** Cancelling twice is cancelling once. */
  lemma CancelIdempotent(flags: map<string, bool>, runId: Option<string>)
    ensures CancelFlags(CancelFlags(flags, runId), runId) == CancelFlags(flags, runId)
  {
  }

  /** The order of two cancel requests does not matter. */
  lemma CancelCommutes(flags: map<string, bool>, a: Option<string>, b: Option<string>)
    ensures CancelFlags(CancelFlags(flags, a), b) == CancelFlags(CancelFlags(flags, b), a)
  {
    var ab := CancelFlags(CancelFlags(flags, a), b);
    var ba := CancelFlags(CancelFlags(flags, b), a);
    assert ab.Keys == ba.Keys;
    forall k | k in ab ensures ab[k] == ba[k] {
    }
  }

  /** The registry of running project analyses. */
  class CancelRegistry {
    var flags: map<string, bool>

    constructor()
      ensures flags == map[]
    {
      flags := map[];
    }

    /** `analyzeProject` starts a run with a fresh, unset flag (replacing the flag
        of an earlier run with the same id). */
    method Register(runId: string)
      modifies this
      ensures flags == old(flags)[runId := false]
    {
      flags := flags[runId := false];
    }

    /** The `cancel` request: `"*"` sets every flag, one by one; another id sets
        that run's flag if there is one. */
    method Cancel(runId: Option<string>)
      modifies this
      ensures flags == CancelFlags(old(flags), runId)
    {
      if runId.Some? {
        var id := runId.value;
        if id == AllRuns {
          var pending := flags.Keys;
          var updated := flags;
          while pending != {}
            invariant pending <= flags.Keys
            invariant updated.Keys == flags.Keys
            invariant forall k :: k in updated ==> updated[k] == (k !in pending || flags[k])
            decreases pending
          {
            var k :| k in pending;
            updated := updated[k := true];
            pending := pending - {k};
          }
          assert updated == CancelFlags(flags, runId);
          flags := updated;
        } else if id in flags {
          flags := flags[id := true];
        }
      }
    }
  }

  /** A run registered and then cancelled, by its id or by `"*"`, sees its flag
      set, whatever other requests came in between. */
  lemma RegisteredRunIsCancelled(flags: map<string, bool>, runId: string, between: seq<Option<string>>,
                                 runId': Option<string>)
    requires runId' == Some(runId) || runId' == Some(AllRuns)
    ensures runId in CancelFlags(CancelAll(flags[runId := false], between), runId')
    ensures CancelFlags(CancelAll(flags[runId := false], between), runId')[runId]
  {
    CancelAllKeys(flags[runId := false], between);
  }

  /** A sequence of cancel requests. */
  function CancelAll(flags: map<string, bool>, requests: seq<Option<string>>): map<string, bool> {
    if requests == [] then flags
    else CancelFlags(CancelAll(flags, requests[..|requests| - 1]), requests[|requests| - 1])
  }

  /** No cancel request adds or removes runs. */
  lemma {:induction false} CancelAllKeys(flags: map<string, bool>, requests: seq<Option<string>>)
    ensures CancelAll(flags, requests).Keys == flags.Keys
    decreases |requests|
  {
    if requests != [] {
      CancelAllKeys(flags, requests[..|requests| - 1]);
    }
  }
}
