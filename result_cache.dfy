/** The analysis result caches: the in-memory map from file path (compared by
    its components, as `PathBuf` keys are) to the last diagnostics, and the on-disk directory of JSON entries (daemon/src/main.rs,
    `analyze_file`, `cache_file_name`, `read_disk_cache`, `write_disk_cache`,
    `is_cached`).  The hashes `cache_key_for_path` and `settings_fingerprint` are
    inputs; a file's `(mtime, size)` signature is an input that is `None` when the
    file cannot be inspected. */
module ResultCache {
  import opened Wrappers
  import opened Machine
  import opened Paths
  import opened DiagnosticTypes

  const DiskCacheVersion: U32 := 1

  /** What a file looked like when it was analysed. */
  datatype Signature = Signature(mtime: U64, size: U64)

  datatype CacheEntry = CacheEntry(
    mtime: U64,
    size: U64,
    settingsHash: U64,
    diagnostics: seq<RpcDiagnostic>)

  datatype DiskCacheEntry = DiskCacheEntry(
    version: U32,
    filePath: Path,
    mtime: U64,
    size: U64,
    settingsHash: U64,
    diagnostics: seq<RpcDiagnostic>)

  /** A file in the cache directory: one that decodes as an entry, or one that
      cannot be read or parsed. */
  datatype DiskFile = Stored(entry: DiskCacheEntry) | Unreadable

  /** The cache directory, by file name. */
  type CacheDir = map<string, DiskFile>

  /** "{key:016x}-{mtime}-{size}-{hash:016x}.json" */
  function CacheFileName(key: U64, mtime: U64, size: U64, settingsHash: U64): (name: string)
    ensures |name| > 17 && name[..17] == KeyPrefix(key)
  {
    Hex16(key) + (['-'] + (Decimal(mtime) + (['-'] + (Decimal(size) + (['-'] + (Hex16(settingsHash) + ".json"))))))
  }

  /** The prefix all cache files of one path key share. */
  function KeyPrefix(key: U64): (p: string)
    ensures |p| == 17
  {
    Hex16(key) + "-"
  }

  predicate StartsWith(s: string, prefix: string) {
    |prefix| <= |s| && s[..|prefix|] == prefix
  }

  lemma DigitsLackDash(s: string)
    requires AllDigits(s)
    ensures Lacks(s, '-')
  {
  }

  /** The file name determines all four numbers it is made of. */
  lemma CacheFileNameInjective(k1: U64, m1: U64, s1: U64, h1: U64, k2: U64, m2: U64, s2: U64, h2: U64)
    requires CacheFileName(k1, m1, s1, h1) == CacheFileName(k2, m2, s2, h2)
    ensures k1 == k2 && m1 == m2 && s1 == s2 && h1 == h2
  {
    var n := CacheFileName(k1, m1, s1, h1);
    var t1 := Hex16(h1) + ".json";
    var t2 := Hex16(h2) + ".json";
    var r1 := Decimal(m1) + (['-'] + (Decimal(s1) + (['-'] + t1)));
    var r2 := Decimal(m2) + (['-'] + (Decimal(s2) + (['-'] + t2)));
    assert Hex16(k1) == n[..16] == Hex16(k2);
    Hex16Injective(k1, k2);
    assert r1 == n[17..] == r2;
    DigitsLackDash(Decimal(m1));
    DigitsLackDash(Decimal(m2));
    SplitAtSeparator('-', Decimal(m1), Decimal(s1) + (['-'] + t1), Decimal(m2), Decimal(s2) + (['-'] + t2));
    DigitsLackDash(Decimal(s1));
    DigitsLackDash(Decimal(s2));
    SplitAtSeparator('-', Decimal(s1), t1, Decimal(s2), t2);
    DecimalInjective(m1, m2);
    DecimalInjective(s1, s2);
    assert Hex16(h1) == t1[..16] == Hex16(h2);
    Hex16Injective(h1, h2);
  }

  /** Files of different path keys never share the prefix. */
  lemma KeyPrefixSeparates(k1: U64, k2: U64, m: U64, s: U64, h: U64)
    requires k1 != k2
    ensures !StartsWith(CacheFileName(k2, m, s, h), KeyPrefix(k1))
  {
    if StartsWith(CacheFileName(k2, m, s, h), KeyPrefix(k1)) {
      assert Hex16(k1) == KeyPrefix(k1)[..16] == KeyPrefix(k2)[..16] == Hex16(k2);
      Hex16Injective(k1, k2);
    }
  }

  // ---- Disk cache ----

  /** `read_disk_cache`: the diagnostics of the entry under the request's file name,
      provided it decodes, has the current version, names the same path and records
      the same signature and settings hash. */
  function ReadDiskCache(dir: CacheDir, key: U64, filePath: Path, sig: Signature, settingsHash: U64)
    : (r: Option<seq<RpcDiagnostic>>)
    ensures r.Some? ==>
      var name := CacheFileName(key, sig.mtime, sig.size, settingsHash);
      name in dir
      && dir[name] == Stored(DiskCacheEntry(DiskCacheVersion, filePath, sig.mtime, sig.size, settingsHash, r.value))
  {
    var name := CacheFileName(key, sig.mtime, sig.size, settingsHash);
    if name !in dir || dir[name].Unreadable? then None
    else
      var e := dir[name].entry;
      if e.version != DiskCacheVersion then None
      else if e.filePath != filePath then None
      else if e.mtime != sig.mtime || e.size != sig.size || e.settingsHash != settingsHash then None
      else Some(e.diagnostics)
  }

  /** A valid entry is always found. */
  lemma ReadDiskCacheFinds(dir: CacheDir, key: U64, filePath: Path, sig: Signature, settingsHash: U64,
                           diagnostics: seq<RpcDiagnostic>)
    requires CacheFileName(key, sig.mtime, sig.size, settingsHash) in dir
    requires dir[CacheFileName(key, sig.mtime, sig.size, settingsHash)]
      == Stored(DiskCacheEntry(DiskCacheVersion, filePath, sig.mtime, sig.size, settingsHash, diagnostics))
    ensures ReadDiskCache(dir, key, filePath, sig, settingsHash) == Some(diagnostics)
  {
  }

  /** `write_disk_cache`: stores the entry under its file name, then deletes every
      other file of the same path key.  `persisted` is whether serialising, writing
      and renaming the temporary file succeeded (otherwise nothing changes);
      `listed` is whether the directory could be listed for the clean-up. */
  function WriteDiskCache(dir: CacheDir, key: U64, filePath: Path, sig: Signature, settingsHash: U64,
                          diagnostics: seq<RpcDiagnostic>, persisted: bool, listed: bool): (r: CacheDir)
    ensures !persisted ==> r == dir
    ensures persisted ==>
      var name := CacheFileName(key, sig.mtime, sig.size, settingsHash);
      name in r
      && r[name] == Stored(DiskCacheEntry(DiskCacheVersion, filePath, sig.mtime, sig.size, settingsHash, diagnostics))
    ensures forall n :: !StartsWith(n, KeyPrefix(key)) ==> (n in r <==> n in dir) && (n in r ==> r[n] == dir[n])
    ensures persisted && listed ==>
      forall n :: n in r && StartsWith(n, KeyPrefix(key)) ==> n == CacheFileName(key, sig.mtime, sig.size, settingsHash)
    ensures persisted && !listed ==>
      forall n :: n in dir && n != CacheFileName(key, sig.mtime, sig.size, settingsHash) ==> n in r && r[n] == dir[n]
  {
    var name := CacheFileName(key, sig.mtime, sig.size, settingsHash);
    if !persisted then dir
    else
      var written := dir[name := Stored(DiskCacheEntry(DiskCacheVersion, filePath, sig.mtime, sig.size, settingsHash, diagnostics))];
      if !listed then written
      else map n | n in written && (n == name || !StartsWith(n, KeyPrefix(key))) :: written[n]
  }

  /** What was written is read back. */
  lemma ReadAfterWrite(dir: CacheDir, key: U64, filePath: Path, sig: Signature, settingsHash: U64,
                       diagnostics: seq<RpcDiagnostic>, listed: bool)
    ensures ReadDiskCache(WriteDiskCache(dir, key, filePath, sig, settingsHash, diagnostics, true, listed),
                          key, filePath, sig, settingsHash) == Some(diagnostics)
  {
  }

  /** Writing the entry of one path key leaves what every other key reads. */
  lemma WriteLeavesOtherKeys(dir: CacheDir, key: U64, filePath: Path, sig: Signature, settingsHash: U64,
                             diagnostics: seq<RpcDiagnostic>, persisted: bool, listed: bool,
                             key': U64, filePath': Path, sig': Signature, settingsHash': U64)
    requires key' != key
    ensures ReadDiskCache(WriteDiskCache(dir, key, filePath, sig, settingsHash, diagnostics, persisted, listed),
                          key', filePath', sig', settingsHash')
         == ReadDiskCache(dir, key', filePath', sig', settingsHash')
  {
    KeyPrefixSeparates(key, key', sig'.mtime, sig'.size, settingsHash');
  }

  /** After a complete write, an older signature or settings hash of the same path
      key finds nothing: the stale files are gone. */
  lemma WriteRemovesStale(dir: CacheDir, key: U64, filePath: Path, sig: Signature, settingsHash: U64,
                          diagnostics: seq<RpcDiagnostic>, filePath': Path, sig': Signature, settingsHash': U64)
    requires sig' != sig || settingsHash' != settingsHash
    ensures ReadDiskCache(WriteDiskCache(dir, key, filePath, sig, settingsHash, diagnostics, true, true),
                          key, filePath', sig', settingsHash') == None
  {
    var name' := CacheFileName(key, sig'.mtime, sig'.size, settingsHash');
    if name' == CacheFileName(key, sig.mtime, sig.size, settingsHash) {
      CacheFileNameInjective(key, sig'.mtime, sig'.size, settingsHash', key, sig.mtime, sig.size, settingsHash);
    }
  }

  /** Two paths whose keys collide never read each other's diagnostics. */
  lemma KeyCollisionRejected(dir: CacheDir, key: U64, filePath: Path, sig: Signature, settingsHash: U64,
                             diagnostics: seq<RpcDiagnostic>, listed: bool, filePath': Path)
    requires filePath' != filePath
    ensures ReadDiskCache(WriteDiskCache(dir, key, filePath, sig, settingsHash, diagnostics, true, listed),
                          key, filePath', sig, settingsHash) == None
  {
  }

  // ---- In-memory cache and the combined lookup ----

  /** The in-memory hit rule of `analyze_file` and `is_cached`: signature and
      settings hash all agree. */
  predicate MemoryHit(e: CacheEntry, sig: Signature, settingsHash: U64) {
    e.mtime == sig.mtime && e.size == sig.size && e.settingsHash == settingsHash
  }

  /** `is_cached`, as the incremental project run uses it.  An in-memory entry
      decides; otherwise only the existence of the right file name counts. */
  function IsCached(memory: map<PathKey, CacheEntry>, dir: Option<CacheDir>, filePath: Path, key: U64,
                    sig: Option<Signature>, settingsHash: U64): (b: bool)
    ensures b ==> sig.Some?
    ensures sig.Some? && Components(filePath) in memory ==> (b <==> MemoryHit(memory[Components(filePath)], sig.value, settingsHash))
    ensures sig.Some? && Components(filePath) !in memory ==>
      (b <==> dir.Some? && CacheFileName(key, sig.value.mtime, sig.value.size, settingsHash) in dir.value)
  {
    if sig.None? then false
    else if Components(filePath) in memory then MemoryHit(memory[Components(filePath)], sig.value, settingsHash)
    else if dir.Some? then CacheFileName(key, sig.value.mtime, sig.value.size, settingsHash) in dir.value
    else false
  }

  /** An in-memory entry answers `is_cached` whatever the disk holds. */
  lemma IsCachedMemoryDecides(memory: map<PathKey, CacheEntry>, dir1: Option<CacheDir>, dir2: Option<CacheDir>,
                              filePath: Path, key: U64, sig: Option<Signature>, settingsHash: U64)
    requires Components(filePath) in memory
    ensures IsCached(memory, dir1, filePath, key, sig, settingsHash)
         == IsCached(memory, dir2, filePath, key, sig, settingsHash)
  {
  }

  /** The cache lookup at the start of `analyze_file`: with a signature, a matching
      in-memory entry first, otherwise a valid disk entry. */
  function CacheLookup(memory: map<PathKey, CacheEntry>, dir: Option<CacheDir>, filePath: Path, key: U64,
                       sig: Option<Signature>, settingsHash: U64): (r: Option<seq<RpcDiagnostic>>)
    ensures sig.None? ==> r.None?
    ensures sig.Some? && Components(filePath) in memory && MemoryHit(memory[Components(filePath)], sig.value, settingsHash) ==>
      r == Some(memory[Components(filePath)].diagnostics)
    ensures r.Some? && dir.None? ==> Components(filePath) in memory && memory[Components(filePath)].diagnostics == r.value
  {
    if sig.None? then None
    else if Components(filePath) in memory && MemoryHit(memory[Components(filePath)], sig.value, settingsHash) then
      Some(memory[Components(filePath)].diagnostics)
    else if dir.Some? then ReadDiskCache(dir.value, key, filePath, sig.value, settingsHash)
    else None
  }

  /** Cached diagnostics are reused only when they were recorded for this very
      signature and settings hash, in memory or in a current-version disk entry
      for this path. */
  lemma CacheLookupSound(memory: map<PathKey, CacheEntry>, dir: Option<CacheDir>, filePath: Path, key: U64,
                         sig: Option<Signature>, settingsHash: U64)
    ensures var r := CacheLookup(memory, dir, filePath, key, sig, settingsHash);
      r.Some? ==>
        sig.Some?
        && ((Components(filePath) in memory
             && memory[Components(filePath)] == CacheEntry(sig.value.mtime, sig.value.size, settingsHash, r.value))
            || (dir.Some?
                && CacheFileName(key, sig.value.mtime, sig.value.size, settingsHash) in dir.value
                && dir.value[CacheFileName(key, sig.value.mtime, sig.value.size, settingsHash)]
                   == Stored(DiskCacheEntry(DiskCacheVersion, filePath, sig.value.mtime, sig.value.size, settingsHash, r.value))))
  {
  }

  /** Without an in-memory entry, anything the lookup would reuse also counts as
      cached; the converse fails, see `IsCachedAcceptsUnreadable`. */
  lemma CacheLookupImpliesIsCached(memory: map<PathKey, CacheEntry>, dir: Option<CacheDir>, filePath: Path, key: U64,
                                   sig: Option<Signature>, settingsHash: U64)
    requires Components(filePath) !in memory
    requires CacheLookup(memory, dir, filePath, key, sig, settingsHash).Some?
    ensures IsCached(memory, dir, filePath, key, sig, settingsHash)
  {
  }

  /** `is_cached` only checks that the file exists, so an unreadable entry counts
      as cached although the lookup rejects it. */
  lemma IsCachedAcceptsUnreadable(filePath: Path, key: U64, sig: Signature, settingsHash: U64)
    returns (dir: CacheDir)
    ensures IsCached(map[], Some(dir), filePath, key, Some(sig), settingsHash)
    ensures CacheLookup(map[], Some(dir), filePath, key, Some(sig), settingsHash) == None
  {
    dir := map[CacheFileName(key, sig.mtime, sig.size, settingsHash) := Unreadable];
  }

  /** A stale in-memory entry makes `is_cached` answer "no" although the lookup
      would find a valid disk entry. */
  lemma IsCachedIgnoresDiskBehindStaleMemory(filePath: Path, key: U64, sig: Signature, settingsHash: U64,
                                             diagnostics: seq<RpcDiagnostic>)
    returns (memory: map<PathKey, CacheEntry>, dir: CacheDir)
    ensures !IsCached(memory, Some(dir), filePath, key, Some(sig), settingsHash)
    ensures CacheLookup(memory, Some(dir), filePath, key, Some(sig), settingsHash) == Some(diagnostics)
  {
    memory := map[Components(filePath) := CacheEntry(sig.mtime, sig.size, (settingsHash + 1) % 0x1_0000_0000_0000_0000, [])];
    dir := WriteDiskCache(map[], key, filePath, sig, settingsHash, diagnostics, true, true);
    ReadAfterWrite(map[], key, filePath, sig, settingsHash, diagnostics, true);
  }
}
