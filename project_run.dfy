/** The sequential outline of an `analyzeProject` run (daemon/src/main.rs,
    the thread spawned by `analyzeProject`): the incremental filter, the split
    into batches, the per-file cancel check, publishing and the progress reports. */
module ProjectRun {
  import opened Wrappers
  import opened Machine
  import opened Paths
  import opened ResultCache

  /** `Vec::retain`: the elements that satisfy `keep`, in order. */
  function Retain(s: seq<Path>, keep: Path -> bool): (r: seq<Path>)
    ensures |r| <= |s|
  {
    if s == [] then []
    else Retain(s[..|s| - 1], keep) + (if keep(s[|s| - 1]) then [s[|s| - 1]] else [])
  }

  /** `Retain` keeps exactly the elements that pass. */
  lemma {:induction false} RetainMembers(s: seq<Path>, keep: Path -> bool)
    ensures forall x :: x in Retain(s, keep) <==> x in s && keep(x)
    decreases |s|
  {
    if s != [] {
      var init := s[..|s| - 1];
      RetainMembers(init, keep);
      assert s == init + [s[|s| - 1]];
    }
  }

  /** Filtering again removes nothing more. */
  lemma {:induction false} RetainIdempotent(s: seq<Path>, keep: Path -> bool)
    ensures Retain(Retain(s, keep), keep) == Retain(s, keep)
    decreases |s|
  {
    if s != [] {
      var init := s[..|s| - 1];
      var last := s[|s| - 1];
      RetainIdempotent(init, keep);
      var r := Retain(s, keep);
      if keep(last) {
        assert r == Retain(init, keep) + [last];
        assert r[..|r| - 1] == Retain(init, keep) && r[|r| - 1] == last;
      } else {
        assert r == Retain(init, keep);
      }
    }
  }

  /** Everything is kept exactly when every element passes. */
  lemma {:induction false} RetainAll(s: seq<Path>, keep: Path -> bool)
    ensures Retain(s, keep) == s <==> forall i :: 0 <= i < |s| ==> keep(s[i])
    decreases |s|
  {
    if s != [] {
      var init := s[..|s| - 1];
      RetainAll(init, keep);
      if !keep(s[|s| - 1]) {
        assert |Retain(s, keep)| < |s|;
      } else if Retain(s, keep) == s {
        assert Retain(init, keep) == Retain(s, keep)[..|s| - 1] == init;
      }
    }
  }

  /** The files an incremental run analyses: those `is_cached` does not accept. */
  function IncrementalFiles(files: seq<Path>, incremental: bool, cached: Path -> bool): (r: seq<Path>)
    ensures |r| <= |files|
    ensures !incremental ==> r == files
  {
    if incremental then Retain(files, (f: Path) => !cached(f)) else files
  }

  /** An incremental run never analyses a cached file, and keeps every other one. */
  lemma IncrementalFilesSpec(files: seq<Path>, cached: Path -> bool)
    ensures forall f :: f in IncrementalFiles(files, true, cached) <==> f in files && !cached(f)
    ensures IncrementalFiles(files, false, cached) == files
  {
    RetainMembers(files, (f: Path) => !cached(f));
  }

  /** With the cache test of `analyzeProject` (`is_cached` on the file's cache key,
      its current signature and the settings hash), an incremental run analyses
      exactly the files that test rejects, and always one without a signature. */
  lemma IncrementalRunSkipsCached(files: seq<Path>, memory: map<PathKey, CacheEntry>, dir: Option<CacheDir>,
                                  keyOf: Path -> U64, sigOf: Path -> Option<Signature>, settingsHash: U64)
    ensures var cached := (f: Path) => IsCached(memory, dir, f, keyOf(f), sigOf(f), settingsHash);
      forall f :: f in IncrementalFiles(files, true, cached) <==>
        f in files && !IsCached(memory, dir, f, keyOf(f), sigOf(f), settingsHash)
    ensures var cached := (f: Path) => IsCached(memory, dir, f, keyOf(f), sigOf(f), settingsHash);
      forall f :: f in files && sigOf(f).None? ==> f in IncrementalFiles(files, true, cached)
  {
    var cached := (f: Path) => IsCached(memory, dir, f, keyOf(f), sigOf(f), settingsHash);
    IncrementalFilesSpec(files, cached);
  }

  /** `effective_batch`: a batch size of 0 means one batch of everything (the
      `max(1)` applied to any other size leaves it as it is). */
  function EffectiveBatch(total: nat, batchSize: nat): (n: nat)
    ensures total > 0 ==> n > 0
    ensures n == batchSize || n == total
  {
    if batchSize == 0 then total else batchSize
  }

  /** `slice::chunks(n)`. */
  function Chunks<T>(s: seq<T>, n: nat): seq<seq<T>>
    requires n > 0
    decreases |s|
  {
    if s == [] then []
    else if |s| <= n then [s]
    else [s[..n]] + Chunks(s[n..], n)
  }

  function Flatten<T>(ss: seq<seq<T>>): seq<T> {
    if ss == [] then [] else ss[0] + Flatten(ss[1..])
  }

  /** The batches cover the files exactly, in order. */
  lemma {:induction false} ChunksFlatten<T>(s: seq<T>, n: nat)
    requires n > 0
    ensures Flatten(Chunks(s, n)) == s
    decreases |s|
  {
    if s == [] {
    } else if |s| <= n {
      assert Flatten([s]) == s + Flatten([s][1..]);
    } else {
      ChunksFlatten(s[n..], n);
      assert Chunks(s, n)[1..] == Chunks(s[n..], n);
      assert s[..n] + s[n..] == s;
    }
  }

  /** Each batch holds between 1 and `n` files, and all but the last exactly `n`. */
  lemma {:induction false} ChunksSizes<T>(s: seq<T>, n: nat)
    requires n > 0
    ensures forall i :: 0 <= i < |Chunks(s, n)| ==> 0 < |Chunks(s, n)[i]| <= n
    ensures forall i :: 0 <= i < |Chunks(s, n)| - 1 ==> |Chunks(s, n)[i]| == n
    decreases |s|
  {
    if |s| > n {
      var rest := Chunks(s[n..], n);
      ChunksSizes(s[n..], n);
      var cs := Chunks(s, n);
      assert forall i :: 1 <= i < |cs| ==> cs[i] == rest[i - 1];
    }
  }

  /** There are `|s| / n` batches, rounded up. */
  lemma {:induction false} ChunksCount<T>(s: seq<T>, n: nat)
    requires n > 0
    ensures |Chunks(s, n)| * n >= |s|
    ensures s != [] ==> (|Chunks(s, n)| - 1) * n < |s|
    decreases |s|
  {
    if |s| > n {
      var c := |Chunks(s[n..], n)|;
      ChunksCount(s[n..], n);
      assert |Chunks(s, n)| == c + 1;
      assert (c + 1) * n == c * n + n;
      assert (c - 1) * n == c * n - n;
    }
  }

  /** Without a batch size the run is one batch of every file. */
  lemma NoBatchSizeIsOneBatch<T>(s: seq<T>)
    requires |s| > 0
    ensures Chunks(s, EffectiveBatch(|s|, 0)) == [s]
  {
  }

  /** Progress is reported for the last file and for every tenth. */
  predicate ShouldReport(finished: nat, total: nat) {
    finished == total || finished % 10 == 0
  }

  /** The `finished` counts reported once `k` of `total` files were published. */
  function Reports(k: nat, total: nat): seq<nat> {
    if k == 0 then [] else Reports(k - 1, total) + (if ShouldReport(k, total) then [k] else [])
  }

  /** The reports count upwards, each is a tenth or the total, none is missed, and
      a complete run reports its total last. */
  lemma {:induction false} ReportsShape(k: nat, total: nat)
    ensures forall i, j :: 0 <= i < j < |Reports(k, total)| ==> Reports(k, total)[i] < Reports(k, total)[j]
    ensures forall m :: m in Reports(k, total) <==> 1 <= m <= k && ShouldReport(m, total)
    ensures k == total > 0 ==> Reports(k, total)[|Reports(k, total)| - 1] == total
    decreases k
  {
    if k > 0 {
      ReportsShape(k - 1, total);
      var before := Reports(k - 1, total);
      if ShouldReport(k, total) {
        assert Reports(k, total) == before + [k];
        forall i | 0 <= i < |before| ensures before[i] < k {
          assert before[i] in before;
        }
      } else {
        assert Reports(k, total) == before;
      }
    }
  }

  /** A full run reports once per ten files, rounded up. */
  lemma {:induction false} ReportsCount(k: nat, total: nat)
    requires k <= total
    ensures |Reports(k, total)| == k / 10 + (if k == total && k % 10 != 0 then 1 else 0)
    decreases k
  {
    if k > 0 {
      ReportsCount(k - 1, total);
    }
  }

  /** The files whose task starts, with `sawCancel(i)` telling whether the `i`-th
      task found the run's cancel flag set. */
  function Analysed(files: seq<Path>, sawCancel: nat -> bool): seq<Path> {
    if files == [] then []
    else
      var last := if sawCancel(|files| - 1) then [] else [files[|files| - 1]];
      Analysed(files[..|files| - 1], sawCancel) + last
  }

  /** What a run has produced so far. */
  datatype RunState = RunState(analysed: seq<Path>, published: seq<Path>, reports: seq<nat>)

  /** One task: unless it sees the cancel flag, it analyses its file, and publishes
      the result when the path converts to a file URI (`publishable`); then the
      shared counter goes up and progress is reported by `ShouldReport`. */
  function TaskStep(st: RunState, pos: nat, file: Path, total: nat, sawCancel: nat -> bool,
                    publishable: Path -> bool): (r: RunState)
    ensures sawCancel(pos) ==> r == st
    ensures !sawCancel(pos) ==> r.analysed == st.analysed + [file]
    ensures r.published == st.published || (!sawCancel(pos) && r.published == st.published + [file])
  {
    if sawCancel(pos) then st
    else if !publishable(file) then st.(analysed := st.analysed + [file])
    else
      var done := |st.published| + 1;
      RunState(st.analysed + [file], st.published + [file],
               st.reports + (if ShouldReport(done, total) then [done] else []))
  }

  /** The tasks of `files`, run in order. */
  function RunOver(files: seq<Path>, total: nat, sawCancel: nat -> bool, publishable: Path -> bool): RunState {
    if files == [] then RunState([], [], [])
    else TaskStep(RunOver(files[..|files| - 1], total, sawCancel, publishable),
                  |files| - 1, files[|files| - 1], total, sawCancel, publishable)
  }

  /** A run analyses at most one file per task and publishes only files it analysed. */
  lemma {:induction false} RunOverBounds(files: seq<Path>, total: nat, sawCancel: nat -> bool, publishable: Path -> bool)
    ensures var st := RunOver(files, total, sawCancel, publishable);
      |st.published| <= |st.analysed| <= |files|
    decreases |files|
  {
    if files != [] {
      RunOverBounds(files[..|files| - 1], total, sawCancel, publishable);
    }
  }

  lemma RunOverSnoc(files: seq<Path>, pos: nat, total: nat, sawCancel: nat -> bool, publishable: Path -> bool)
    requires pos < |files|
    ensures RunOver(files[..pos + 1], total, sawCancel, publishable)
         == TaskStep(RunOver(files[..pos], total, sawCancel, publishable), pos, files[pos], total, sawCancel, publishable)
  {
    assert files[..pos + 1][..pos] == files[..pos];
  }

  lemma {:induction false} RunOverAnalysed(files: seq<Path>, total: nat, sawCancel: nat -> bool,
                                           publishable: Path -> bool)
    ensures RunOver(files, total, sawCancel, publishable).analysed == Analysed(files, sawCancel)
    decreases |files|
  {
    if files != [] {
      RunOverAnalysed(files[..|files| - 1], total, sawCancel, publishable);
    }
  }

  lemma {:induction false} RunOverPublished(files: seq<Path>, total: nat, sawCancel: nat -> bool,
                                            publishable: Path -> bool)
    ensures var st := RunOver(files, total, sawCancel, publishable);
      st.published == Retain(st.analysed, publishable)
    decreases |files|
  {
    if files != [] {
      var init := files[..|files| - 1];
      RunOverPublished(init, total, sawCancel, publishable);
      var a := RunOver(init, total, sawCancel, publishable).analysed;
      var f := files[|files| - 1];
      if !sawCancel(|files| - 1) {
        assert (a + [f])[..|a + [f]| - 1] == a;
      }
    }
  }

  lemma {:induction false} RunOverReports(files: seq<Path>, total: nat, sawCancel: nat -> bool,
                                          publishable: Path -> bool)
    ensures var st := RunOver(files, total, sawCancel, publishable);
      st.reports == Reports(|st.published|, total)
    decreases |files|
  {
    if files != [] {
      RunOverReports(files[..|files| - 1], total, sawCancel, publishable);
    }
  }

  /** Running the tasks analyses the files not cancelled, publishes those of them
      that convert, and reports progress by the count published. */
  lemma RunOverSpec(files: seq<Path>, total: nat, sawCancel: nat -> bool, publishable: Path -> bool)
    ensures var st := RunOver(files, total, sawCancel, publishable);
      st.analysed == Analysed(files, sawCancel)
      && st.published == Retain(st.analysed, publishable)
      && st.reports == Reports(|st.published|, total)
  {
    RunOverAnalysed(files, total, sawCancel, publishable);
    RunOverPublished(files, total, sawCancel, publishable);
    RunOverReports(files, total, sawCancel, publishable);
  }

  /** The cancel flag is never cleared once set: when every task from the `c`-th on
      sees it, those tasks analyse, publish and report nothing, and the run ends as
      it stood after its first `c` tasks. */
  lemma {:induction false} CancelledTasksDoNothing(files: seq<Path>, c: nat, total: nat, sawCancel: nat -> bool,
                                                   publishable: Path -> bool)
    requires c <= |files|
    requires forall i :: c <= i < |files| ==> sawCancel(i)
    ensures RunOver(files, total, sawCancel, publishable) == RunOver(files[..c], total, sawCancel, publishable)
    decreases |files|
  {
    if |files| > c {
      var init := files[..|files| - 1];
      CancelledTasksDoNothing(init, c, total, sawCancel, publishable);
      assert init[..c] == files[..c];
    } else {
      assert files[..c] == files;
    }
  }

  /** Where batch `c` lies in the files it was cut from. */
  lemma ChunkAt<T>(s: seq<T>, chunks: seq<seq<T>>, c: nat)
    requires Flatten(chunks) == s && c < |chunks|
    ensures |Flatten(chunks[..c])| + |chunks[c]| <= |s|
    ensures s[|Flatten(chunks[..c])|..|Flatten(chunks[..c])| + |chunks[c]|] == chunks[c]
  {
    FlattenSplit(chunks, c);
    assert Flatten(chunks[c..]) == chunks[c] + Flatten(chunks[c..][1..]);
    var start := |Flatten(chunks[..c])|;
    assert s[start..start + |chunks[c]|] == Flatten(chunks[c..])[..|chunks[c]|];
  }

  /** The tasks of one batch, in file order: the batch is `files[pos..pos + |chunk|]`
      and `st` what the tasks before it produced. `done` is the shared counter of
      published files. */
  method RunChunk(files: seq<Path>, pos: nat, chunk: seq<Path>, st0: RunState, done0: nat,
                  sawCancel: nat -> bool, publishable: Path -> bool)
    returns (st: RunState, done: nat)
    requires pos + |chunk| <= |files| && files[pos..pos + |chunk|] == chunk
    requires st0 == RunOver(files[..pos], |files|, sawCancel, publishable)
    requires done0 == |st0.published|
    ensures st == RunOver(files[..pos + |chunk|], |files|, sawCancel, publishable)
    ensures done == |st.published|
  {
    var total := |files|;
    st, done := st0, done0;
    for j := 0 to |chunk|
      invariant st == RunOver(files[..pos + j], total, sawCancel, publishable)
      invariant done == |st.published|
    {
      var file := chunk[j];
      assert file == files[pos + j];
      RunOverSnoc(files, pos + j, total, sawCancel, publishable);
      if !sawCancel(pos + j) {
        if publishable(file) {
          done := done + 1;
          var report := if ShouldReport(done, total) then [done] else [];
          st := RunState(st.analysed + [file], st.published + [file], st.reports + report);
        } else {
          st := st.(analysed := st.analysed + [file]);
        }
      }
    }
  }

  /** The tasks of an `analyzeProject` run, one batch after the other (the pool
      runs each batch to completion before the next starts); within a batch the
      tasks are taken in file order. */
  method RunBatches(files: seq<Path>, batchSize: nat, sawCancel: nat -> bool, publishable: Path -> bool)
    returns (st: RunState)
    ensures st.analysed == Analysed(files, sawCancel)
    ensures st.published == Retain(st.analysed, publishable)
    ensures st.reports == Reports(|st.published|, |files|)
  {
    var total := |files|;
    st := RunState([], [], []);
    if total == 0 {
      return;
    }
    var batch := EffectiveBatch(total, batchSize);
    var chunks := Chunks(files, batch);
    ChunksFlatten(files, batch);
    var pos := 0;
    var done := 0;
    for c := 0 to |chunks|
      invariant pos == |Flatten(chunks[..c])| <= |files|
      invariant st == RunOver(files[..pos], total, sawCancel, publishable)
      invariant done == |st.published|
    {
      var chunk := chunks[c];
      assert pos + |chunk| <= |files| && files[pos..pos + |chunk|] == chunk
          && |Flatten(chunks[..c + 1])| == pos + |chunk| by {
        ChunkAt(files, chunks, c);
        FlattenSnoc(chunks, c);
      }
      st, done := RunChunk(files, pos, chunk, st, done, sawCancel, publishable);
      pos := pos + |chunk|;
    }
    assert chunks[..|chunks|] == chunks;
    assert files[..pos] == files;
    RunOverSpec(files, total, sawCancel, publishable);
  }

  lemma {:induction false} FlattenSnoc<T>(ss: seq<seq<T>>, c: nat)
    requires c < |ss|
    ensures Flatten(ss[..c + 1]) == Flatten(ss[..c]) + ss[c]
    decreases c
  {
    if c == 0 {
      assert ss[..1] == [ss[0]];
      assert Flatten([ss[0]]) == ss[0] + Flatten([ss[0]][1..]);
    } else {
      assert ss[..c + 1][1..] == ss[1..][..c];
      assert ss[..c][1..] == ss[1..][..c - 1];
      FlattenSnoc(ss[1..], c - 1);
    }
  }

  lemma {:induction false} FlattenSplit<T>(ss: seq<seq<T>>, c: nat)
    requires c <= |ss|
    ensures Flatten(ss) == Flatten(ss[..c]) + Flatten(ss[c..])
    decreases c
  {
    if c == 0 {
      assert ss[c..] == ss;
    } else {
      FlattenSplit(ss[1..], c - 1);
      assert ss[..c][1..] == ss[1..][..c - 1];
      assert ss[1..][c - 1..] == ss[c..];
    }
  }

  /** When nothing is cancelled and every path converts, every file is published
      and the last report is the total. */
  lemma CompleteRunReportsTotal(files: seq<Path>, sawCancel: nat -> bool, publishable: Path -> bool)
    requires |files| > 0
    requires forall i :: 0 <= i < |files| ==> !sawCancel(i)
    requires forall i :: 0 <= i < |files| ==> publishable(files[i])
    ensures Analysed(files, sawCancel) == files
    ensures Retain(files, publishable) == files
    ensures Reports(|files|, |files|)[|Reports(|files|, |files|)| - 1] == |files|
  {
    AnalysedAll(files, sawCancel);
    RetainAll(files, publishable);
    ReportsShape(|files|, |files|);
  }

  lemma {:induction false} AnalysedAll(files: seq<Path>, sawCancel: nat -> bool)
    requires forall i :: 0 <= i < |files| ==> !sawCancel(i)
    ensures Analysed(files, sawCancel) == files
    decreases |files|
  {
    if files != [] {
      AnalysedAll(files[..|files| - 1], sawCancel);
    }
  }
}
