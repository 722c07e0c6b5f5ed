/** The index built from compile_commands.json (daemon/src/main.rs,
    `get_compile_index`, `file_in_index`, `find_compile_entry`,
    `load_project_files`).  Reading and parsing the file are inputs: the parsed
    entries, or `None` when either fails.  `std::fs::canonicalize` is the input
    function `canonical` (its fallback to the path itself included).  The index's
    set and map are keyed by `PathBuf`, so a path is looked up by its components. */
module CompileIndex {
  import opened Wrappers
  import opened Machine
  import opened Paths
  import opened CommandLine

  /** `Path::is_absolute` on Unix. */
  predicate IsAbsolute(p: Path) {
    |p| > 0 && p[0] == '/'
  }

  /** `PathBuf::join` with a relative `file`: a separator is inserted unless `dir`
      is empty or already ends in one. */
  function JoinPath(dir: Path, file: Path): (r: Path)
    ensures |r| == |dir| + |file| || (|r| == |dir| + 1 + |file| && r[|dir|] == '/')
    ensures r[..|dir|] == dir && r[|r| - |file|..] == file
  {
    if dir == [] || dir[|dir| - 1] == '/' then dir + file else dir + "/" + file
  }

  /** The path an entry names: `file` itself when absolute, else under `directory`. */
  function ResolvedPath(e: CompileCommandEntry): (p: Path)
    ensures IsAbsolute(e.file) ==> p == e.file
    ensures !IsAbsolute(e.file) ==> p == JoinPath(e.directory, e.file)
  {
    if IsAbsolute(e.file) then e.file else JoinPath(e.directory, e.file)
  }

  function IndexKey(e: CompileCommandEntry, canonical: Path -> Path): Path {
    canonical(ResolvedPath(e))
  }

  /** The key an entry is filed under in `file_set` and `commands`. */
  function EntryKey(e: CompileCommandEntry, canonical: Path -> Path): PathKey {
    Components(IndexKey(e, canonical))
  }

  /** The entry that first names the path `p`, scanning in file order. */
  function FirstEntryFor(entries: seq<CompileCommandEntry>, canonical: Path -> Path, p: PathKey)
    : Option<CompileCommandEntry>
  {
    if entries == [] then None
    else
      var before := FirstEntryFor(entries[..|entries| - 1], canonical, p);
      if before.Some? then before
      else if EntryKey(entries[|entries| - 1], canonical) == p then Some(entries[|entries| - 1])
      else None
  }

  /** `FirstEntryFor` finds an entry for every path some entry names, and it is the
      earliest one. */
  lemma {:induction false} FirstEntryForSpec(entries: seq<CompileCommandEntry>, canonical: Path -> Path, p: PathKey)
    ensures FirstEntryFor(entries, canonical, p).Some? <==>
      exists j :: 0 <= j < |entries| && EntryKey(entries[j], canonical) == p
    ensures FirstEntryFor(entries, canonical, p).Some? ==>
      exists j :: 0 <= j < |entries| && EntryKey(entries[j], canonical) == p
        && FirstEntryFor(entries, canonical, p).value == entries[j]
        && forall i :: 0 <= i < j ==> EntryKey(entries[i], canonical) != p
    decreases |entries|
  {
    if entries != [] {
      var n := |entries| - 1;
      var init := entries[..n];
      FirstEntryForSpec(init, canonical, p);
      if FirstEntryFor(init, canonical, p).Some? {
        var j :| 0 <= j < |init| && EntryKey(init[j], canonical) == p
          && FirstEntryFor(init, canonical, p).value == init[j]
          && forall i :: 0 <= i < j ==> EntryKey(init[i], canonical) != p;
        assert entries[j] == init[j];
        forall i | 0 <= i < j ensures EntryKey(entries[i], canonical) != p {
          assert entries[i] == init[i];
        }
      } else {
        forall i | 0 <= i < n ensures EntryKey(entries[i], canonical) != p {
          assert entries[i] == init[i];
        }
      }
    }
  }

  /** `CompileCommandsIndex`. */
  datatype CompileCommandsIndex = CompileCommandsIndex(
    path: Path,
    mtime: U64,
    files: seq<Path>,
    fileSet: set<PathKey>,
    commands: map<PathKey, CompileCommandEntry>)

  /** The paths of the entries, in file order and with repetitions. */
  function IndexedFiles(entries: seq<CompileCommandEntry>, canonical: Path -> Path): (fs: seq<Path>)
    ensures |fs| == |entries|
    ensures forall i :: 0 <= i < |entries| ==> fs[i] == IndexKey(entries[i], canonical)
  {
    seq(|entries|, i requires 0 <= i < |entries| => IndexKey(entries[i], canonical))
  }

  /** The keys of the entries, in file order and with repetitions. */
  function IndexedKeys(entries: seq<CompileCommandEntry>, canonical: Path -> Path): (ks: seq<PathKey>)
    ensures |ks| == |entries|
    ensures forall i :: 0 <= i < |entries| ==> ks[i] == EntryKey(entries[i], canonical)
  {
    seq(|entries|, i requires 0 <= i < |entries| => EntryKey(entries[i], canonical))
  }

  /** `index` is what the loop of `get_compile_index` builds from `entries`. */
  ghost predicate IndexOf(index: CompileCommandsIndex, path: Path, mtime: U64,
                          entries: seq<CompileCommandEntry>, canonical: Path -> Path) {
    && index.path == path
    && index.mtime == mtime
    && index.files == IndexedFiles(entries, canonical)
    && index.fileSet == KeySet(entries, canonical)
    && index.commands.Keys == index.fileSet
    && forall p :: p in index.commands ==> FirstEntryFor(entries, canonical, p) == Some(index.commands[p])
  }

  /** The distinct keys of the entries. */
  function KeySet(entries: seq<CompileCommandEntry>, canonical: Path -> Path): set<PathKey> {
    set k | k in IndexedKeys(entries, canonical)
  }

  /** `KeySet` holds a path exactly when some entry names it. */
  lemma KeySetMembers(entries: seq<CompileCommandEntry>, canonical: Path -> Path, p: PathKey)
    ensures p in KeySet(entries, canonical) <==> exists j :: 0 <= j < |entries| && EntryKey(entries[j], canonical) == p
  {
    var ks := IndexedKeys(entries, canonical);
    if p in ks {
      var j :| 0 <= j < |ks| && ks[j] == p;
      assert EntryKey(entries[j], canonical) == p;
    }
  }

  /** The commands map after one more iteration keeps the first entry per path. */
  lemma CommandsSnoc(commands: map<PathKey, CompileCommandEntry>, entries: seq<CompileCommandEntry>,
                     e: CompileCommandEntry, canonical: Path -> Path)
    requires commands.Keys == KeySet(entries, canonical)
    requires forall p :: p in commands ==> FirstEntryFor(entries, canonical, p) == Some(commands[p])
    ensures var key := EntryKey(e, canonical);
      var next := if key in commands then commands else commands[key := e];
      forall p :: p in next ==> FirstEntryFor(entries + [e], canonical, p) == Some(next[p])
  {
    var all := entries + [e];
    var key := EntryKey(e, canonical);
    assert all[..|all| - 1] == entries;
    if key !in commands {
      KeySetMembers(entries, canonical, key);
      FirstEntryForSpec(entries, canonical, key);
    }
  }

  /** One iteration of the loop of `get_compile_index` extends the index of the
      entries seen so far to the index of one more entry. */
  lemma IndexOfSnoc(index: CompileCommandsIndex, entries: seq<CompileCommandEntry>, e: CompileCommandEntry,
                    canonical: Path -> Path)
    requires IndexOf(index, index.path, index.mtime, entries, canonical)
    ensures var key := EntryKey(e, canonical);
      IndexOf(index.(files := index.files + [IndexKey(e, canonical)], fileSet := index.fileSet + {key},
                     commands := if key in index.commands then index.commands else index.commands[key := e]),
              index.path, index.mtime, entries + [e], canonical)
  {
    var all := entries + [e];
    assert all[..|all| - 1] == entries;
    assert IndexedFiles(all, canonical) == IndexedFiles(entries, canonical) + [IndexKey(e, canonical)];
    assert IndexedKeys(all, canonical) == IndexedKeys(entries, canonical) + [EntryKey(e, canonical)];
    CommandsSnoc(index.commands, entries, e, canonical);
  }

  /** The loop of `get_compile_index`: every entry's path is pushed onto `files`
      and into `file_set`, and `commands` keeps the first entry per path. */
  method BuildCompileIndex(path: Path, mtime: U64, entries: seq<CompileCommandEntry>, canonical: Path -> Path)
    returns (index: CompileCommandsIndex)
    ensures IndexOf(index, path, mtime, entries, canonical)
  {
    var files: seq<Path> := [];
    var fileSet: set<PathKey> := {};
    var commands: map<PathKey, CompileCommandEntry> := map[];
    for i := 0 to |entries|
      invariant IndexOf(CompileCommandsIndex(path, mtime, files, fileSet, commands), path, mtime, entries[..i], canonical)
    {
      var e := entries[i];
      var full := IndexKey(e, canonical);
      var key := EntryKey(e, canonical);
      IndexOfSnoc(CompileCommandsIndex(path, mtime, files, fileSet, commands), entries[..i], e, canonical);
      assert entries[..i + 1] == entries[..i] + [e];
      fileSet := fileSet + {key};
      files := files + [full];
      if key !in commands {
        commands := commands[key := e];
      }
    }
    assert entries[..|entries|] == entries;
    index := CompileCommandsIndex(path, mtime, files, fileSet, commands);
  }

  /** `file_in_index`. */
  function FileInIndex(file: Path, index: CompileCommandsIndex, canonical: Path -> Path): (found: bool)
    ensures canonical(file) == file ==> (found <==> Components(file) in index.fileSet)
  {
    Components(canonical(file)) in index.fileSet
  }

  /** `find_compile_entry`. */
  function FindCompileEntry(index: CompileCommandsIndex, file: Path, canonical: Path -> Path)
    : (r: Option<CompileCommandEntry>)
    ensures r.Some? <==> Components(canonical(file)) in index.commands
    ensures r.Some? ==> r.value in index.commands.Values
  {
    var key := Components(canonical(file));
    if key in index.commands then Some(index.commands[key]) else None
  }

  /** On a built index the two lookups agree, and the entry found is the first one
      in compile_commands.json for that file. */
  lemma LookupsAgree(index: CompileCommandsIndex, path: Path, mtime: U64, entries: seq<CompileCommandEntry>,
                     canonical: Path -> Path, file: Path)
    requires IndexOf(index, path, mtime, entries, canonical)
    ensures FileInIndex(file, index, canonical) <==> FindCompileEntry(index, file, canonical).Some?
    ensures FindCompileEntry(index, file, canonical) == FirstEntryFor(entries, canonical, Components(canonical(file)))
  {
    FirstEntryForSpec(entries, canonical, Components(canonical(file)));
  }

  /** Two spellings whose canonical forms have the same components are looked up
      alike. */
  lemma LookupsIgnoreSpelling(index: CompileCommandsIndex, canonical: Path -> Path, a: Path, b: Path)
    requires Components(canonical(a)) == Components(canonical(b))
    ensures FileInIndex(a, index, canonical) == FileInIndex(b, index, canonical)
    ensures FindCompileEntry(index, a, canonical) == FindCompileEntry(index, b, canonical)
  {
  }

  /** Every file of the index is in it, and only those. */
  lemma IndexFilesInIndex(index: CompileCommandsIndex, path: Path, mtime: U64, entries: seq<CompileCommandEntry>,
                          canonical: Path -> Path)
    requires IndexOf(index, path, mtime, entries, canonical)
    ensures forall k :: k in index.fileSet <==> exists i :: 0 <= i < |index.files| && Components(index.files[i]) == k
  {
    forall k | k in index.fileSet ensures exists i :: 0 <= i < |index.files| && Components(index.files[i]) == k {
      KeySetMembers(entries, canonical, k);
      var j :| 0 <= j < |entries| && EntryKey(entries[j], canonical) == k;
      assert Components(index.files[j]) == k;
    }
    forall k | exists i :: 0 <= i < |index.files| && Components(index.files[i]) == k ensures k in index.fileSet {
      var i :| 0 <= i < |index.files| && Components(index.files[i]) == k;
      KeySetMembers(entries, canonical, k);
      assert EntryKey(entries[i], canonical) == k;
    }
  }

  /** The components of the paths in `fs`. */
  function ComponentSet(fs: set<Path>): set<PathKey> {
    set p | p in fs :: Components(p)
  }

  /** `load_project_files`, used when there is no index: the entries' paths
      inserted one by one into a `HashSet<PathBuf>`, without canonicalisation.  A
      path whose components are already present is not inserted again, so the
      set keeps the first spelling of each file. */
  function LoadProjectFiles(entries: seq<CompileCommandEntry>): (fs: set<Path>)
    ensures entries != [] ==> fs != {}
    decreases |entries|
  {
    if entries == [] then {}
    else
      var before := LoadProjectFiles(entries[..|entries| - 1]);
      var full := ResolvedPath(entries[|entries| - 1]);
      if Components(full) in ComponentSet(before) then before else before + {full}
  }

  /** The components of the entries' paths. */
  function ProjectKeys(entries: seq<CompileCommandEntry>): set<PathKey> {
    set k | k in ProjectKeySeq(entries)
  }

  function ProjectKeySeq(entries: seq<CompileCommandEntry>): (ks: seq<PathKey>)
    ensures |ks| == |entries|
    ensures forall i :: 0 <= i < |entries| ==> ks[i] == Components(ResolvedPath(entries[i]))
  {
    seq(|entries|, i requires 0 <= i < |entries| => Components(ResolvedPath(entries[i])))
  }

  /** No two paths of `fs` are spellings of one path. */
  predicate OneSpellingEach(fs: set<Path>) {
    forall p, q :: p in fs && q in fs && Components(p) == Components(q) ==> p == q
  }

  /** Every project file is a path some entry names. */
  lemma {:induction false} LoadProjectFilesNamed(entries: seq<CompileCommandEntry>)
    ensures forall p :: p in LoadProjectFiles(entries) ==> exists i :: 0 <= i < |entries| && ResolvedPath(entries[i]) == p
    decreases |entries|
  {
    if entries != [] {
      var n := |entries| - 1;
      var init := entries[..n];
      LoadProjectFilesNamed(init);
      var before := LoadProjectFiles(init);
      assert LoadProjectFiles(entries) <= before + {ResolvedPath(entries[n])};
      forall p | p in before ensures exists i :: 0 <= i < |entries| && ResolvedPath(entries[i]) == p {
        var i :| 0 <= i < |init| && ResolvedPath(init[i]) == p;
        assert entries[i] == init[i];
      }
    }
  }

  /** No file is in the set under two spellings. */
  lemma {:induction false} LoadProjectFilesOneSpelling(entries: seq<CompileCommandEntry>)
    ensures OneSpellingEach(LoadProjectFiles(entries))
    decreases |entries|
  {
    if entries != [] {
      var init := entries[..|entries| - 1];
      LoadProjectFilesOneSpelling(init);
      var before := LoadProjectFiles(init);
      var full := ResolvedPath(entries[|entries| - 1]);
      if Components(full) !in ComponentSet(before) {
        forall p | p in before ensures Components(p) != Components(full) {
          assert Components(p) in ComponentSet(before);
        }
      }
    }
  }

  lemma ProjectKeysSnoc(entries: seq<CompileCommandEntry>)
    requires entries != []
    ensures ProjectKeys(entries)
         == ProjectKeys(entries[..|entries| - 1]) + {Components(ResolvedPath(entries[|entries| - 1]))}
  {
    var n := |entries| - 1;
    assert ProjectKeySeq(entries) == ProjectKeySeq(entries[..n]) + [Components(ResolvedPath(entries[n]))];
  }

  /** Every entry's file is in the set, under one of its spellings. */
  lemma {:induction false} LoadProjectFilesKeys(entries: seq<CompileCommandEntry>)
    ensures ComponentSet(LoadProjectFiles(entries)) == ProjectKeys(entries)
    decreases |entries|
  {
    if entries != [] {
      var init := entries[..|entries| - 1];
      LoadProjectFilesKeys(init);
      ProjectKeysSnoc(entries);
      var before := LoadProjectFiles(init);
      var full := ResolvedPath(entries[|entries| - 1]);
      if Components(full) !in ComponentSet(before) {
        assert ComponentSet(before + {full}) == ComponentSet(before) + {Components(full)};
      }
    }
  }

  /** The project files are spellings the entries use, one per file, and every
      entry's file is among them. */
  lemma LoadProjectFilesSpec(entries: seq<CompileCommandEntry>)
    ensures var fs := LoadProjectFiles(entries);
      && (forall p :: p in fs ==> exists i :: 0 <= i < |entries| && ResolvedPath(entries[i]) == p)
      && OneSpellingEach(fs)
      && ComponentSet(fs) == ProjectKeys(entries)
  {
    LoadProjectFilesNamed(entries);
    LoadProjectFilesOneSpelling(entries);
    LoadProjectFilesKeys(entries);
  }

  /** One file named twice, once relative to `/w` and once as `./a.cpp` relative
      to `/w/`, is one project file. */
  lemma LoadProjectFilesMergesSpellings()
    ensures LoadProjectFiles([CompileCommandEntry("a.cpp", "/w", None, None),
                              CompileCommandEntry("./a.cpp", "/w/", None, None)]) == {"/w/a.cpp"}
  {
    var e1, e2 := CompileCommandEntry("a.cpp", "/w", None, None), CompileCommandEntry("./a.cpp", "/w/", None, None);
    assert ResolvedPath(e1) == "/w" + "/" + "a.cpp" == "/w/a.cpp";
    assert ResolvedPath(e2) == "/w" + "/./" + "a.cpp";
    CurDirIgnored("/w", "a.cpp");
    assert [e1, e2][..1] == [e1];
    assert [e1][..0] == [];
    assert ComponentSet({}) == {};
    assert LoadProjectFiles([e1]) == {"/w/a.cpp"};
    assert ComponentSet({"/w/a.cpp"}) == {Components("/w/a.cpp")};
  }

  /** Where canonicalisation changes nothing, both routes agree on the files. */
  lemma ProjectFilesMatchIndex(index: CompileCommandsIndex, path: Path, mtime: U64,
                               entries: seq<CompileCommandEntry>, canonical: Path -> Path)
    requires IndexOf(index, path, mtime, entries, canonical)
    requires forall i :: 0 <= i < |entries| ==> canonical(ResolvedPath(entries[i])) == ResolvedPath(entries[i])
    ensures ComponentSet(LoadProjectFiles(entries)) == index.fileSet
  {
    LoadProjectFilesKeys(entries);
    assert IndexedKeys(entries, canonical) == ProjectKeySeq(entries);
  }

  /** `get_compile_index` keeps an index as long as the path and the modification
      time are the same. */
  predicate Reusable(index: CompileCommandsIndex, path: Path, mtime: U64) {
    Components(index.path) == Components(path) && index.mtime == mtime
  }

  /** The index slot of `AppState`. */
  class IndexSlot {
    var current: Option<CompileCommandsIndex>

    constructor()
      ensures current == None
    {
      current := None;
    }

    /** `get_compile_index`; `mtime` is `None` when it cannot be read (it then
        counts as 0), `entries` is `None` when reading or parsing fails. */
    method GetCompileIndex(path: Path, mtime: Option<U64>, entries: Option<seq<CompileCommandEntry>>,
                           canonical: Path -> Path)
      returns (r: Option<CompileCommandsIndex>)
      modifies this
      ensures old(current).Some? && Reusable(old(current).value, path, mtime.GetOr(0)) ==>
        r == old(current) && current == old(current)
      ensures !(old(current).Some? && Reusable(old(current).value, path, mtime.GetOr(0))) ==>
        (entries.None? ==> r.None? && current == old(current))
        && (entries.Some? ==> r.Some? && current == r && IndexOf(r.value, path, mtime.GetOr(0), entries.value, canonical))
    {
      var m := mtime.GetOr(0);
      if current.Some? && Reusable(current.value, path, m) {
        return current;
      }
      if entries.None? {
        return None;
      }
      var index := BuildCompileIndex(path, m, entries.value, canonical);
      current := Some(index);
      r := current;
    }

    /** `initialize` always drops the index; the `configChanged` notification
        drops it only when its settings parse (`settingsParsed`). */
    method ConfigChanged(settingsParsed: bool)
      modifies this
      ensures settingsParsed ==> current == None
      ensures !settingsParsed ==> current == old(current)
    {
      if settingsParsed {
        current := None;
      }
    }
  }
}
