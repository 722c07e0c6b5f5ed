/** Unix path components: what `Path`'s `==` and `Hash` compare.  Two spellings
    of one path (`/w/a.cpp`, `/w//a.cpp`, `/w/./a.cpp`, `/w/a.cpp/`) are one key
    of a `HashMap<PathBuf, _>` or a `HashSet<PathBuf>`, although their strings
    differ. */
module Paths {
  import opened Machine

  /** The components of a path: a root, a leading `.` (kept only at the start of
      a relative path), and the other segments, without empty and `.` ones. */
  datatype PathKey = PathKey(rooted: bool, curDir: bool, parts: seq<string>)

  /** The scan that cuts a path at its separators. */
  datatype Splitter = Splitter(parts: seq<string>, current: string)

  /** A segment is `.`. */
  predicate IsCurDir(segment: string) {
    |segment| == 1 && segment[0] == '.'
  }

  function Flush(parts: seq<string>, segment: string): seq<string> {
    if |segment| == 0 || IsCurDir(segment) then parts else parts + [segment]
  }

  function SplitStep(st: Splitter, c: char): Splitter {
    if c == '/' then Splitter(Flush(st.parts, st.current), []) else st.(current := st.current + [c])
  }

  function Scan(st: Splitter, s: string): Splitter
    decreases |s|
  {
    if s == [] then st else Scan(SplitStep(st, s[0]), s[1..])
  }

  function Segments(p: Path): seq<string> {
    var st := Scan(Splitter([], []), p);
    Flush(st.parts, st.current)
  }

  predicate Rooted(p: Path) {
    |p| > 0 && p[0] == '/'
  }

  /** `Components` keeps a `.` that opens a relative path. */
  predicate LeadingCurDir(p: Path) {
    |p| > 0 && p[0] == '.' && (|p| == 1 || p[1] == '/')
  }

  /** `Path::components`, which path equality and hashing compare. */
  function Components(p: Path): PathKey {
    PathKey(Rooted(p), LeadingCurDir(p), Segments(p))
  }

  predicate Clean(parts: seq<string>) {
    forall i :: 0 <= i < |parts| ==> |parts[i]| > 0 && !IsCurDir(parts[i])
  }

  lemma {:induction false} ScanClean(st: Splitter, s: string)
    requires Clean(st.parts)
    ensures Clean(Scan(st, s).parts)
    decreases |s|
  {
    if s != [] {
      ScanClean(SplitStep(st, s[0]), s[1..]);
    }
  }

  /** No component is empty or `.`. */
  lemma ComponentsClean(p: Path)
    ensures Clean(Components(p).parts)
  {
    ScanClean(Splitter([], []), p);
  }

  lemma {:induction false} ScanAppend(st: Splitter, a: string, b: string)
    ensures Scan(st, a + b) == Scan(Scan(st, a), b)
    decreases |a|
  {
    if a != [] {
      assert (a + b)[0] == a[0] && (a + b)[1..] == a[1..] + b;
      ScanAppend(SplitStep(st, a[0]), a[1..], b);
    } else {
      assert a + b == b;
    }
  }

  /** `a + sep + b` scans as `a`, then `sep`, then `b`. */
  lemma ScanAround(a: string, sep: string, b: string)
    ensures Scan(Splitter([], []), a + sep + b) == Scan(Scan(Scan(Splitter([], []), a), sep), b)
  {
    ScanAppend(Splitter([], []), a + sep, b);
    ScanAppend(Splitter([], []), a, sep);
  }

  /** A repeated separator cuts nothing more. */
  lemma RepeatedSeparatorIgnored(a: Path, b: Path)
    ensures Components(a + "//" + b) == Components(a + "/" + b)
  {
    ScanAround(a, "//", b);
    ScanAround(a, "/", b);
    var st := Scan(Splitter([], []), a);
    assert Scan(st, "//") == Scan(st, "/");
    var p, q := a + "//" + b, a + "/" + b;
    if a == [] {
      assert p[0] == q[0] == '/';
    } else {
      assert p[0] == q[0] == a[0];
      assert |a| >= 2 ==> p[1] == q[1] == a[1];
      assert |a| == 1 ==> p[1] == q[1] == '/';
    }
  }

  /** A `.` segment after the first is dropped. */
  lemma CurDirIgnored(a: Path, b: Path)
    requires a != []
    ensures Components(a + "/./" + b) == Components(a + "/" + b)
  {
    ScanAround(a, "/./", b);
    ScanAround(a, "/", b);
    var st := Scan(Splitter([], []), a);
    assert Scan(st, "/./") == Scan(st, "/");
    var p, q := a + "/./" + b, a + "/" + b;
    assert p[0] == q[0] == a[0];
    assert |a| >= 2 ==> p[1] == q[1] == a[1];
    assert |a| == 1 ==> p[1] == q[1] == '/';
  }

  /** A trailing separator is ignored. */
  lemma TrailingSeparatorIgnored(a: Path)
    requires a != []
    ensures Components(a + "/") == Components(a)
  {
    ScanAppend(Splitter([], []), a, "/");
    var p := a + "/";
    assert p[0] == a[0];
    assert |a| >= 2 ==> p[1] == a[1];
  }

  /** A root, and a leading `.`, are components: `/a`, `a` and `./a` differ. */
  lemma RootAndCurDirCount()
    ensures Components("/a") != Components("a")
    ensures Components("./a") != Components("a")
  {
    assert !LeadingCurDir("a");
    assert LeadingCurDir("./a");
  }
}
