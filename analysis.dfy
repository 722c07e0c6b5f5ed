/** `analyze_file` (daemon/src/main.rs): the cache lookup, the post-processing of
    clang-tidy's findings and the cache update.  Running clang-tidy and parsing
    its output are inputs. */
module Analysis {
  import opened Wrappers
  import opened Machine
  import opened Paths
  import opened DiagnosticTypes
  import opened Diagnostics
  import opened ResultCache

  /** `paths_match`, with `std::fs::canonicalize` (or its fallback) as `canonical`:
      the canonical forms are compared as `PathBuf`s, component by component. */
  function PathsMatch(a: Path, b: Path, canonical: Path -> Path): (r: bool)
    ensures a == b ==> r
    ensures canonical(a) == canonical(b) ==> r
  {
    Components(canonical(a)) == Components(canonical(b))
  }

  /** Matching is an equivalence on paths. */
  lemma PathsMatchEquivalence(a: Path, b: Path, c: Path, canonical: Path -> Path)
    ensures PathsMatch(a, b, canonical) <==> PathsMatch(b, a, canonical)
    ensures PathsMatch(a, b, canonical) && PathsMatch(b, c, canonical) ==> PathsMatch(a, c, canonical)
  {
  }

  /** `diags.retain(|d| paths_match(&d.file, file_path))`. */
  function ForFile(ds: seq<Diag>, file: Path, canonical: Path -> Path): (r: seq<Diag>)
    ensures |r| <= |ds|
    ensures forall i :: 0 <= i < |r| ==> r[i] in ds && PathsMatch(r[i].file, file, canonical)
  {
    if ds == [] then []
    else
      var last := ds[|ds| - 1];
      ForFile(ds[..|ds| - 1], file, canonical) + (if PathsMatch(last.file, file, canonical) then [last] else [])
  }

  ghost predicate DistinctKeys(ds: seq<Diag>) {
    forall i, j :: 0 <= i < j < |ds| ==> DiagKey(ds[i]) != DiagKey(ds[j])
  }

  /** The filter keeps the diagnostics of the file and drops all others. */
  lemma {:induction false} ForFileMembers(ds: seq<Diag>, file: Path, canonical: Path -> Path)
    ensures forall d :: d in ForFile(ds, file, canonical) <==> d in ds && PathsMatch(d.file, file, canonical)
    decreases |ds|
  {
    if ds != [] {
      ForFileMembers(ds[..|ds| - 1], file, canonical);
      assert ds == ds[..|ds| - 1] + [ds[|ds| - 1]];
    }
  }

  /** The filter works element by element: it keeps order and repetitions. */
  lemma {:induction false} ForFileAppend(a: seq<Diag>, b: seq<Diag>, file: Path, canonical: Path -> Path)
    ensures ForFile(a + b, file, canonical) == ForFile(a, file, canonical) + ForFile(b, file, canonical)
    decreases |b|
  {
    if b != [] {
      var init := b[..|b| - 1];
      ForFileAppend(a, init, file, canonical);
      assert (a + b)[..|a + b| - 1] == a + init;
      assert (a + b)[|a + b| - 1] == b[|b| - 1];
    } else {
      assert a + b == a;
    }
  }

  /** One diagnostic is kept exactly when its path matches the file. */
  lemma ForFileSingleton(d: Diag, file: Path, canonical: Path -> Path)
    ensures ForFile([d], file, canonical) == (if PathsMatch(d.file, file, canonical) then [d] else [])
  {
    assert [d][..0] == [];
  }

  lemma KeysOfSubset(a: seq<Diag>, b: seq<Diag>)
    requires forall d :: d in a ==> d in b
    ensures KeysOf(a) <= KeysOf(b)
  {
    forall k | k in KeysOf(a) ensures k in KeysOf(b) {
      var i :| 0 <= i < |a| && DiagKey(a[i]) == k;
      assert a[i] in a;
      var j :| 0 <= j < |b| && b[j] == a[i];
    }
  }

  /** The filter keeps keys distinct. */
  lemma {:induction false} ForFileDistinct(ds: seq<Diag>, file: Path, canonical: Path -> Path)
    requires DistinctKeys(ds)
    ensures DistinctKeys(ForFile(ds, file, canonical))
    decreases |ds|
  {
    if ds != [] {
      var init := ds[..|ds| - 1];
      var last := ds[|ds| - 1];
      assert DistinctKeys(init);
      ForFileDistinct(init, file, canonical);
      if PathsMatch(last.file, file, canonical) {
        var fi := ForFile(init, file, canonical);
        ForFileMembers(init, file, canonical);
        forall i | 0 <= i < |fi| ensures DiagKey(fi[i]) != DiagKey(last) {
          assert fi[i] in init;
          var j :| 0 <= j < |init| && init[j] == fi[i];
          assert ds[j] == init[j];
        }
        var r := ForFile(ds, file, canonical);
        assert r == fi + [last];
        forall i, j | 0 <= i < j < |r| ensures DiagKey(r[i]) != DiagKey(r[j]) {
          if j < |fi| {
            assert r[i] == fi[i] && r[j] == fi[j];
          }
        }
      }
    }
  }

  /** Capping changes only fix lists, so keys stay as they were. */
  lemma CappedKeys(ds: seq<Diag>, maxFixes: nat)
    ensures forall i :: 0 <= i < |ds| ==> DiagKey(Capped(ds, maxFixes)[i]) == DiagKey(ds[i])
  {
    CappedShape(ds, maxFixes);
  }

  lemma PrefixKeys(ds: seq<Diag>, n: nat)
    requires n <= |ds|
    ensures KeysOf(ds[..n]) <= KeysOf(ds)
    ensures DistinctKeys(ds) ==> DistinctKeys(ds[..n])
  {
    forall k | k in KeysOf(ds[..n]) ensures k in KeysOf(ds) {
      var i :| 0 <= i < n && DiagKey(ds[..n][i]) == k;
      assert ds[..n][i] == ds[i];
    }
  }

  /** Capping with a budget keeps files and keys and respects the budget. */
  lemma CappedKeep(pre: seq<Diag>, maxFixes: nat)
    requires maxFixes > 0
    ensures forall i :: 0 <= i < |pre| ==> Capped(pre, maxFixes)[i].file == pre[i].file
    ensures KeysOf(Capped(pre, maxFixes)) <= KeysOf(pre)
    ensures DistinctKeys(pre) ==> DistinctKeys(Capped(pre, maxFixes))
    ensures TotalFixes(Capped(pre, maxFixes)) <= maxFixes
  {
    var capped := Capped(pre, maxFixes);
    CappedTotal(pre, maxFixes);
    CappedKeys(pre, maxFixes);
    CappedShape(pre, maxFixes);
    forall k | k in KeysOf(capped) ensures k in KeysOf(pre) {
      var i :| 0 <= i < |capped| && DiagKey(capped[i]) == k;
      assert DiagKey(pre[i]) == k;
    }
  }

  /** What the caps keep: a prefix of the diagnostics, with the same files and
      keys, and no more fixes than allowed. */
  lemma CapsKeep(ds: seq<Diag>, maxFixes: nat, capped: seq<Diag>, n: nat)
    requires n <= |ds|
    requires maxFixes == 0 ==> capped == ds[..n]
    requires maxFixes > 0 ==> capped == Capped(ds[..n], maxFixes)
    ensures |capped| == n
    ensures forall i :: 0 <= i < n ==> capped[i].file == ds[i].file
    ensures KeysOf(capped) <= KeysOf(ds)
    ensures DistinctKeys(ds) ==> DistinctKeys(capped)
    ensures maxFixes > 0 ==> TotalFixes(capped) <= maxFixes
  {
    PrefixKeys(ds, n);
    if maxFixes > 0 {
      CappedKeep(ds[..n], maxFixes);
    }
  }

  /** The RPC form of each diagnostic, in order. */
  function RpcOf(ds: seq<Diag>): (r: seq<RpcDiagnostic>)
    ensures |r| == |ds|
    ensures forall i :: 0 <= i < |ds| ==> r[i] == ToRpcDiagnostic(ds[i])
  {
    seq(|ds|, i requires 0 <= i < |ds| => ToRpcDiagnostic(ds[i]))
  }

  /** `kept` is what `analyze_file` keeps of clang-tidy's findings `diags` and the
      parsed fix export `fixes`, going through the merge result `merged`: merge
      when the export parsed, keep this file's diagnostics, then cap. */
  ghost predicate PostProcessedBy(diags: seq<Diag>, fixes: Option<seq<Diag>>, file: Path, canonical: Path -> Path,
                                  maxDiags: U32, maxFixes: U32, merged: seq<Diag>, kept: seq<Diag>) {
    && (fixes.None? ==> merged == diags)
    && (fixes.Some? ==> MergeOf(diags, fixes.value, merged))
    && CapsHold(ForFile(merged, file, canonical), maxDiags, maxFixes, kept)
  }

  /** Without an export and without caps, the findings of the file itself come
      back as they are, and those of other files are dropped. */
  lemma PostProcessedUncapped(own: Diag, other: Diag, file: Path, canonical: Path -> Path, merged: seq<Diag>, kept: seq<Diag>)
    requires PathsMatch(own.file, file, canonical) && !PathsMatch(other.file, file, canonical)
    requires PostProcessedBy([other, own], None, file, canonical, 0, 0, merged, kept)
    ensures kept == [own]
  {
    ForFileAppend([other], [own], file, canonical);
    ForFileSingleton(other, file, canonical);
    ForFileSingleton(own, file, canonical);
    assert [other] + [own] == [other, own];
  }

  /** The post-processing of `analyze_file`: merge the fixes into the findings when
      the export parsed, keep the findings of this file, cap them, and convert
      them.  `kept` are the diagnostics the result was converted from. */
  method PostProcess(diags: seq<Diag>, fixes: Option<seq<Diag>>, file: Path, canonical: Path -> Path,
                     maxDiags: U32, maxFixes: U32)
    returns (result: seq<RpcDiagnostic>, ghost merged: seq<Diag>, ghost kept: seq<Diag>)
    ensures PostProcessedBy(diags, fixes, file, canonical, maxDiags, maxFixes, merged, kept)
    ensures result == RpcOf(kept)
    ensures |result| == |kept|
    ensures forall i :: 0 <= i < |kept| ==> result[i] == ToRpcDiagnostic(kept[i])
    ensures forall i :: 0 <= i < |kept| ==> PathsMatch(kept[i].file, file, canonical)
    ensures maxDiags > 0 ==> |result| <= maxDiags
    ensures maxFixes > 0 ==> TotalFixes(kept) <= maxFixes
    ensures KeysOf(kept) <= KeysOf(diags) + (if fixes.Some? then KeysOf(fixes.value) else {})
    ensures fixes.Some? ==> DistinctKeys(kept)
  {
    var all := diags;
    if fixes.Some? {
      all := MergeDiagnostics(diags, fixes.value);
    }
    merged := all;
    var matching := ForFile(all, file, canonical);
    ForFileMembers(all, file, canonical);
    KeysOfSubset(matching, all);
    if fixes.Some? {
      ForFileDistinct(all, file, canonical);
    }
    var capped := ApplyDiagnosticCaps(matching, maxDiags, maxFixes);
    CapsKeep(matching, maxFixes, capped, |capped|);
    forall i | 0 <= i < |capped| ensures PathsMatch(capped[i].file, file, canonical) {
      assert matching[i] in matching;
    }
    kept := capped;
    result := RpcOf(capped);
  }

  /** What running clang-tidy on the file gave: an error (the temporary file,
      spawning or the timeout), or the parsed findings together with the parsed
      fix export, `None` when the export could not be parsed. */
  datatype ClangRun = RunFailed | Ran(findings: seq<Diag>, exported: Option<seq<Diag>>)

  /** The daemon's result caches. */
  class Caches {
    var memory: map<PathKey, CacheEntry>
    var disk: Option<CacheDir>

    constructor(disk0: Option<CacheDir>)
      ensures memory == map[] && disk == disk0
    {
      memory := map[];
      disk := disk0;
    }

    /** `analyze_file`: `sig` is the file's signature (`None` when it cannot be
        read, and then nothing is looked up or stored); `disk` is `None` when the
        disk cache is off.  A disk hit is copied into memory.  After a fresh
        analysis, the result is stored in memory and written to disk, whose
        failure (`persisted`, `listed`) is ignored.  `None` is an error. */
    method AnalyzeFile(file: Path, key: U64, sig: Option<Signature>, settingsHash: U64, run: ClangRun,
                       canonical: Path -> Path, maxDiags: U32, maxFixes: U32, persisted: bool, listed: bool)
      returns (r: Option<seq<RpcDiagnostic>>)
      modifies this
      ensures var hit := CacheLookup(old(memory), old(disk), file, key, sig, settingsHash);
        hit.Some? ==>
          r == hit && disk == old(disk)
          && memory == (if Components(file) in old(memory) && MemoryHit(old(memory)[Components(file)], sig.value, settingsHash) then old(memory)
                        else old(memory)[Components(file) := CacheEntry(sig.value.mtime, sig.value.size, settingsHash, hit.value)])
      ensures CacheLookup(old(memory), old(disk), file, key, sig, settingsHash).None? && run.RunFailed? ==>
        r.None? && memory == old(memory) && disk == old(disk)
      ensures CacheLookup(old(memory), old(disk), file, key, sig, settingsHash).None? && run.Ran? ==>
        r.Some?
        && (exists merged, kept :: PostProcessedBy(run.findings, run.exported, file, canonical, maxDiags, maxFixes,
                                                   merged, kept)
                                   && r.value == RpcOf(kept))
        && (maxDiags > 0 ==> |r.value| <= maxDiags)
        && (sig.None? ==> memory == old(memory) && disk == old(disk))
        && (sig.Some? ==>
              memory == old(memory)[Components(file) := CacheEntry(sig.value.mtime, sig.value.size, settingsHash, r.value)]
              && disk == (if old(disk).Some?
                          then Some(WriteDiskCache(old(disk).value, key, file, sig.value, settingsHash, r.value, persisted, listed))
                          else None))
    {
      if sig.Some? {
        var s := sig.value;
        if Components(file) in memory && MemoryHit(memory[Components(file)], s, settingsHash) {
          return Some(memory[Components(file)].diagnostics);
        }
        if disk.Some? {
          var found := ReadDiskCache(disk.value, key, file, s, settingsHash);
          if found.Some? {
            memory := memory[Components(file) := CacheEntry(s.mtime, s.size, settingsHash, found.value)];
            return found;
          }
        }
      }
      if run.RunFailed? {
        return None;
      }
      var result, merged, kept := PostProcess(run.findings, run.exported, file, canonical, maxDiags, maxFixes);
      if sig.Some? {
        var s := sig.value;
        memory := memory[Components(file) := CacheEntry(s.mtime, s.size, settingsHash, result)];
        if disk.Some? {
          disk := Some(WriteDiskCache(disk.value, key, file, s, settingsHash, result, persisted, listed));
        }
      }
      r := Some(result);
    }
  }

  /** Once a result is stored, the next lookup for the same signature and settings
      reuses it, and `is_cached` says so. */
  lemma StoredResultIsReused(memory: map<PathKey, CacheEntry>, dir: Option<CacheDir>, file: Path, key: U64,
                             sig: Signature, settingsHash: U64, result: seq<RpcDiagnostic>)
    ensures var m := memory[Components(file) := CacheEntry(sig.mtime, sig.size, settingsHash, result)];
      CacheLookup(m, dir, file, key, Some(sig), settingsHash) == Some(result)
      && IsCached(m, dir, file, key, Some(sig), settingsHash)
  {
  }

  /** The memory cache is keyed by `PathBuf`: a result stored for `/w/a.cpp` is
      reused when `/w//a.cpp` is analysed, whatever the disk holds under that
      spelling's own cache key. */
  lemma StoredResultIsReusedUnderAnotherSpelling(memory: map<PathKey, CacheEntry>, dir: Option<CacheDir>,
                                                 otherKey: U64, sig: Signature, settingsHash: U64,
                                                 result: seq<RpcDiagnostic>)
    ensures var m := memory[Components("/w/a.cpp") := CacheEntry(sig.mtime, sig.size, settingsHash, result)];
      CacheLookup(m, dir, "/w//a.cpp", otherKey, Some(sig), settingsHash) == Some(result)
      && IsCached(m, dir, "/w//a.cpp", otherKey, Some(sig), settingsHash)
  {
    RepeatedSeparatorIgnored("/w", "a.cpp");
    assert "/w" + "/" + "a.cpp" == "/w/a.cpp";
    assert "/w" + "//" + "a.cpp" == "/w//a.cpp";
  }

  /** A result whose disk write went through survives a restart of the daemon,
      which starts with an empty in-memory cache. */
  lemma StoredResultSurvivesRestart(dir: CacheDir, file: Path, key: U64, sig: Signature, settingsHash: U64,
                                    result: seq<RpcDiagnostic>, listed: bool)
    ensures var d := WriteDiskCache(dir, key, file, sig, settingsHash, result, true, listed);
      CacheLookup(map[], Some(d), file, key, Some(sig), settingsHash) == Some(result)
      && IsCached(map[], Some(d), file, key, Some(sig), settingsHash)
  {
    ReadAfterWrite(dir, key, file, sig, settingsHash, result, listed);
  }

  /** A changed signature or settings hash never reuses a stored result. */
  lemma ChangedFileIsReanalysed(file: Path, key: U64, sig: Signature, settingsHash: U64, result: seq<RpcDiagnostic>,
                                dir: CacheDir, sig': Signature, settingsHash': U64)
    requires sig' != sig || settingsHash' != settingsHash
    ensures var m := map[Components(file) := CacheEntry(sig.mtime, sig.size, settingsHash, result)];
      var d := WriteDiskCache(dir, key, file, sig, settingsHash, result, true, true);
      CacheLookup(m, Some(d), file, key, Some(sig'), settingsHash') == None
  {
    WriteRemovesStale(dir, key, file, sig, settingsHash, result, file, sig', settingsHash');
  }
}
