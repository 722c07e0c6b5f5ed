/** Post-processing of clang-tidy diagnostics before they are returned
    (daemon/src/main.rs: `merge_diagnostics`, `apply_diagnostic_caps`, `diag_key`,
    `to_rpc_diagnostic`, `normalize_severity`, `range_from_line_col`). */
module Diagnostics {
  import opened Wrappers
  import opened Machine
  import opened DiagnosticTypes

  type Diag = InternalDiagnostic

  // ---------------------------------------------------------------------------
  // Severity, ranges and the RPC form

  /** `normalize_severity`: clang-tidy's `error` and `warning` are kept, anything
      else (`note`) becomes `info`. */
  function NormalizeSeverity(raw: string): (r: string)
    ensures r == "error" || r == "warning" || r == "info"
    ensures raw == "error" || raw == "warning" ==> r == raw
    ensures raw != "error" && raw != "warning" ==> r == "info"
  {
    if raw == "error" then "error" else if raw == "warning" then "warning" else "info"
  }

  lemma NormalizeSeverityIdempotent(raw: string)
    ensures NormalizeSeverity(NormalizeSeverity(raw)) == NormalizeSeverity(raw)
  {
  }

  /** Rust's `usize::saturating_sub(1)`. */
  function Pred(n: nat): nat {
    if n == 0 then 0 else n - 1
  }

  /** `range_from_line_col`: a 1-based line and column become a one-character
      range on that line, 0-based. */
  function RangeFromLineCol(line: nat, col: nat): (r: Range)
    ensures r.start.line == r.end.line
    ensures r.end.character == r.start.character + 1
    ensures line >= 1 ==> r.start.line + 1 == line
    ensures col >= 1 ==> r.start.character + 1 == col
    ensures line == 0 ==> r.start.line == 0
    ensures col == 0 ==> r.start.character == 0
  {
    var line0 := Pred(line);
    var col0 := Pred(col);
    Range(Position(line0, col0), Position(line0, col0 + 1))
  }

  /** Reporting a 0-based position 1-based and converting back gives it again. */
  lemma RangeFromLineColRoundTrip(p: Position)
    ensures RangeFromLineCol(p.line + 1, p.character + 1).start == p
  {
  }

  /** `to_rpc_diagnostic`: the file is dropped and an empty fix list becomes `None`. */
  function ToRpcDiagnostic(d: Diag): (r: RpcDiagnostic)
    ensures r.range == d.range && r.severity == d.severity && r.code == d.code && r.message == d.message
    ensures r.fixes.None? <==> d.fixes == []
    ensures r.fixes.Some? ==> r.fixes.value == d.fixes && r.fixes.value != []
  {
    RpcDiagnostic(d.range, d.severity, d.code, d.message, if d.fixes == [] then None else Some(d.fixes))
  }

  /** Reading an RPC diagnostic back for a file, a missing fix list as empty. */
  function FromRpcDiagnostic(file: Path, r: RpcDiagnostic): Diag {
    InternalDiagnostic(file, r.range, r.severity, r.code, r.message, r.fixes.GetOr([]))
  }

  /** Nothing but the file is lost by `to_rpc_diagnostic`. */
  lemma ToRpcDiagnosticRoundTrip(d: Diag)
    ensures FromRpcDiagnostic(d.file, ToRpcDiagnostic(d)) == d
  {
  }

  /** The other direction holds exactly for RPC diagnostics that never carry an
      empty fix list. */
  lemma FromRpcDiagnosticRoundTrip(file: Path, r: RpcDiagnostic)
    ensures ToRpcDiagnostic(FromRpcDiagnostic(file, r)) == r <==> r.fixes != Some([])
  {
  }

  // ---------------------------------------------------------------------------
  // Diagnostic keys

  /** `diag_key`: "file:line:character:code:message" of the range start. */
  function DiagKey(d: Diag): string {
    d.file + ([':'] + (Decimal(d.range.start.line) + ([':'] + (Decimal(d.range.start.character)
      + ([':'] + (d.code.GetOr("") + ([':'] + d.message)))))))
  }

  predicate NoColon(s: string) {
    Lacks(s, ':')
  }

  /** The key starts with the file name and a colon, and ends with a colon and
      the message. */
  lemma DiagKeyShape(d: Diag)
    ensures var k := DiagKey(d);
      |k| > |d.file| && k[..|d.file|] == d.file && k[|d.file|] == ':'
      && |k| > |d.message| && k[|k| - |d.message|..] == d.message && k[|k| - |d.message| - 1] == ':'
  {
  }

  /** When neither file names nor codes contain a colon, the key determines the
      file, the start position, the code (a missing code reads as empty) and the message. */
  lemma DiagKeyInjective(d1: Diag, d2: Diag)
    requires NoColon(d1.file) && NoColon(d2.file)
    requires NoColon(d1.code.GetOr("")) && NoColon(d2.code.GetOr(""))
    requires DiagKey(d1) == DiagKey(d2)
    ensures d1.file == d2.file
    ensures d1.range.start == d2.range.start
    ensures d1.code.GetOr("") == d2.code.GetOr("")
    ensures d1.message == d2.message
  {
    var l1, l2 := Decimal(d1.range.start.line), Decimal(d2.range.start.line);
    var c1, c2 := Decimal(d1.range.start.character), Decimal(d2.range.start.character);
    assert NoColon(l1) && NoColon(l2) && NoColon(c1) && NoColon(c2) by {
      assert AllDigits(l1) && AllDigits(l2) && AllDigits(c1) && AllDigits(c2);
    }
    var k1, k2 := d1.code.GetOr(""), d2.code.GetOr("");
    SplitAtSeparator(':', d1.file, l1 + ([':'] + (c1 + ([':'] + (k1 + ([':'] + d1.message))))),
                 d2.file, l2 + ([':'] + (c2 + ([':'] + (k2 + ([':'] + d2.message))))));
    SplitAtSeparator(':', l1, c1 + ([':'] + (k1 + ([':'] + d1.message))), l2, c2 + ([':'] + (k2 + ([':'] + d2.message))));
    SplitAtSeparator(':', c1, k1 + ([':'] + d1.message), c2, k2 + ([':'] + d2.message));
    SplitAtSeparator(':', k1, d1.message, k2, d2.message);
    DecimalInjective(d1.range.start.line, d2.range.start.line);
    DecimalInjective(d1.range.start.character, d2.range.start.character);
  }

  /** Without that condition distinct findings can share a key, and a missing
      code is indistinguishable from an empty one. */
  lemma DiagKeyCollision(r: Range, sev: string) returns (d1: Diag, d2: Diag)
    ensures d1.range.start != d2.range.start && DiagKey(d1) == DiagKey(d2)
    ensures DiagKey(d1.(code := None)) == DiagKey(d1.(code := Some("")))
  {
    d1 := InternalDiagnostic("x:1", Range(Position(2, 3), Position(2, 4)), sev, Some("c"), "m", []);
    d2 := InternalDiagnostic("x", Range(Position(1, 2), Position(1, 3)), sev, Some("3"), "c:m", []);
    assert Decimal(1) == "1" && Decimal(2) == "2" && Decimal(3) == "3";
    assert DiagKey(d1) == "x:1:2:3:c:m";
    assert DiagKey(d2) == "x:1:2:3:c:m";
  }

  // ---------------------------------------------------------------------------
  // Merging the fixes file into the parsed diagnostics

  predicate KeyedBy(m: map<string, Diag>) {
    forall k :: k in m ==> DiagKey(m[k]) == k
  }

  function KeysOf(ds: seq<Diag>): set<string> {
    set i | 0 <= i < |ds| :: DiagKey(ds[i])
  }

  /** The map after draining `base` into it: the last diagnostic of a key wins. */
  function KeyedBase(base: seq<Diag>): map<string, Diag>
    decreases |base|
  {
    if base == [] then map[]
    else
      var d := base[|base| - 1];
      KeyedBase(base[..|base| - 1])[DiagKey(d) := d]
  }

  /** The map after folding `fixes` into `m`: an existing key gets the fixes
      appended, a new key is inserted. */
  function Absorb(m: map<string, Diag>, fixes: seq<Diag>): map<string, Diag>
    decreases |fixes|
  {
    if fixes == [] then m
    else
      var prev := Absorb(m, fixes[..|fixes| - 1]);
      var f := fixes[|fixes| - 1];
      var k := DiagKey(f);
      if k in prev then prev[k := prev[k].(fixes := prev[k].fixes + f.fixes)] else prev[k := f]
  }

  function MergedMap(base: seq<Diag>, fixes: seq<Diag>): map<string, Diag> {
    Absorb(KeyedBase(base), fixes)
  }

  // Reference definitions

  /** The last diagnostic of `ds` with key `k`. */
  function LastWithKey(ds: seq<Diag>, k: string): (r: Option<Diag>)
    ensures r.Some? ==> DiagKey(r.value) == k
    decreases |ds|
  {
    if ds == [] then None
    else if DiagKey(ds[|ds| - 1]) == k then Some(ds[|ds| - 1])
    else LastWithKey(ds[..|ds| - 1], k)
  }

  /** The first diagnostic of `ds` with key `k`. */
  function FirstWithKey(ds: seq<Diag>, k: string): (r: Option<Diag>)
    ensures r.Some? ==> DiagKey(r.value) == k
    decreases |ds|
  {
    if ds == [] then None
    else if DiagKey(ds[0]) == k then Some(ds[0])
    else FirstWithKey(ds[1..], k)
  }

  /** All fixes of the diagnostics of `ds` with key `k`, in order. */
  function FixesWithKey(ds: seq<Diag>, k: string): seq<Fix>
    decreases |ds|
  {
    if ds == [] then []
    else FixesWithKey(ds[..|ds| - 1], k) + (if DiagKey(ds[|ds| - 1]) == k then ds[|ds| - 1].fixes else [])
  }

  /** What the merge should hold under key `k`: the last base diagnostic with that
      key extended by every matching fix, else the first matching fix diagnostic
      carrying every matching fix, else nothing. */
  function Expected(base: seq<Diag>, fixes: seq<Diag>, k: string): Option<Diag> {
    match LastWithKey(base, k)
    case Some(d) => Some(d.(fixes := d.fixes + FixesWithKey(fixes, k)))
    case None =>
      match FirstWithKey(fixes, k)
      case Some(f) => Some(f.(fixes := FixesWithKey(fixes, k)))
      case None => None
  }

  lemma {:induction false} KeyedBaseAt(base: seq<Diag>, k: string)
    ensures k in KeyedBase(base) <==> LastWithKey(base, k).Some?
    ensures k in KeyedBase(base) ==> KeyedBase(base)[k] == LastWithKey(base, k).value
    decreases |base|
  {
    if base != [] {
      KeyedBaseAt(base[..|base| - 1], k);
    }
  }

  lemma {:induction false} FirstWithKeySnoc(ds: seq<Diag>, d: Diag, k: string)
    ensures FirstWithKey(ds + [d], k)
         == if FirstWithKey(ds, k).Some? then FirstWithKey(ds, k)
            else if DiagKey(d) == k then Some(d) else None
    decreases |ds|
  {
    if ds == [] {
      assert [d][1..] == [];
    } else {
      assert (ds + [d])[0] == ds[0];
      assert (ds + [d])[1..] == ds[1..] + [d];
      FirstWithKeySnoc(ds[1..], d, k);
    }
  }

  lemma {:induction false} FixesWithKeyWithoutMatch(ds: seq<Diag>, k: string)
    requires FirstWithKey(ds, k).None?
    ensures FixesWithKey(ds, k) == []
    decreases |ds|
  {
    if ds != [] {
      var init := ds[..|ds| - 1];
      FirstWithKeySnoc(init, ds[|ds| - 1], k);
      assert init + [ds[|ds| - 1]] == ds;
      FixesWithKeyWithoutMatch(init, k);
    }
  }

  function Lookup(m: map<string, Diag>, k: string): Option<Diag> {
    if k in m then Some(m[k]) else None
  }

  /** What folding `fixes` into `m` leaves under key `k`. */
  function AbsorbExpected(m: map<string, Diag>, fixes: seq<Diag>, k: string): Option<Diag> {
    if k in m then Some(m[k].(fixes := m[k].fixes + FixesWithKey(fixes, k)))
    else match FirstWithKey(fixes, k)
      case Some(f) => Some(f.(fixes := FixesWithKey(fixes, k)))
      case None => None
  }

  lemma {:induction false} AbsorbAt(m: map<string, Diag>, fixes: seq<Diag>, k: string)
    ensures Lookup(Absorb(m, fixes), k) == AbsorbExpected(m, fixes, k)
    decreases |fixes|
  {
    if fixes == [] {
      if k in m {
        assert m[k].fixes + [] == m[k].fixes;
      }
    } else {
      var init := fixes[..|fixes| - 1];
      var f := fixes[|fixes| - 1];
      AbsorbAt(m, init, k);
      assert init + [f] == fixes;
      if DiagKey(f) == k {
        AbsorbMatchingStep(m, init, f, k);
      } else {
        AbsorbOtherStep(m, init, f, k);
      }
    }
  }

  lemma AbsorbOtherStep(m: map<string, Diag>, init: seq<Diag>, f: Diag, k: string)
    requires DiagKey(f) != k
    requires Lookup(Absorb(m, init), k) == AbsorbExpected(m, init, k)
    ensures Lookup(Absorb(m, init + [f]), k) == AbsorbExpected(m, init + [f], k)
  {
    var fixes := init + [f];
    assert fixes[..|fixes| - 1] == init && fixes[|fixes| - 1] == f;
    assert Lookup(Absorb(m, fixes), k) == Lookup(Absorb(m, init), k);
    assert FixesWithKey(fixes, k) == FixesWithKey(init, k) + [];
    assert FixesWithKey(init, k) + [] == FixesWithKey(init, k);
    FirstWithKeySnoc(init, f, k);
    assert FirstWithKey(fixes, k) == FirstWithKey(init, k);
    assert AbsorbExpected(m, fixes, k) == AbsorbExpected(m, init, k);
  }

  lemma AbsorbMatchingStep(m: map<string, Diag>, init: seq<Diag>, f: Diag, k: string)
    requires DiagKey(f) == k
    requires Lookup(Absorb(m, init), k) == AbsorbExpected(m, init, k)
    ensures Lookup(Absorb(m, init + [f]), k) == AbsorbExpected(m, init + [f], k)
  {
    var fixes := init + [f];
    assert fixes[..|fixes| - 1] == init && fixes[|fixes| - 1] == f;
    var flat := FixesWithKey(init, k);
    assert FixesWithKey(fixes, k) == flat + f.fixes;
    FirstWithKeySnoc(init, f, k);
    var prev := Absorb(m, init);
    var next := Absorb(m, fixes);
    assert next == if k in prev then prev[k := prev[k].(fixes := prev[k].fixes + f.fixes)] else prev[k := f];
    if k in m {
      var d := m[k];
      assert prev[k] == d.(fixes := d.fixes + flat);
      assert d.fixes + flat + f.fixes == d.fixes + (flat + f.fixes);
      assert next[k] == d.(fixes := d.fixes + FixesWithKey(fixes, k));
      assert AbsorbExpected(m, fixes, k) == Some(d.(fixes := d.fixes + FixesWithKey(fixes, k)));
    } else if FirstWithKey(init, k).Some? {
      var g := FirstWithKey(init, k).value;
      assert prev[k] == g.(fixes := flat);
      assert FirstWithKey(fixes, k) == Some(g);
      assert next[k] == g.(fixes := FixesWithKey(fixes, k));
      assert AbsorbExpected(m, fixes, k) == Some(g.(fixes := FixesWithKey(fixes, k)));
    } else {
      FixesWithKeyWithoutMatch(init, k);
      assert k !in prev;
      assert FixesWithKey(fixes, k) == f.fixes;
      assert FirstWithKey(fixes, k) == Some(f);
      assert next[k] == f;
      assert f.(fixes := f.fixes) == f;
      assert AbsorbExpected(m, fixes, k) == Some(f.(fixes := FixesWithKey(fixes, k)));
    }
  }

  /** What `merge_diagnostics` builds, key by key. */
  lemma MergedMapAt(base: seq<Diag>, fixes: seq<Diag>, k: string)
    ensures k in MergedMap(base, fixes) <==> Expected(base, fixes, k).Some?
    ensures k in MergedMap(base, fixes) ==> MergedMap(base, fixes)[k] == Expected(base, fixes, k).value
  {
    KeyedBaseAt(base, k);
    AbsorbAt(KeyedBase(base), fixes, k);
    assert Lookup(MergedMap(base, fixes), k) == Expected(base, fixes, k);
  }

  lemma {:induction false} LastWithKeyFound(ds: seq<Diag>, k: string)
    ensures LastWithKey(ds, k).Some? <==> k in KeysOf(ds)
    decreases |ds|
  {
    if ds != [] {
      var init := ds[..|ds| - 1];
      LastWithKeyFound(init, k);
      assert KeysOf(ds) == KeysOf(init) + {DiagKey(ds[|ds| - 1])} by {
        forall x | x in KeysOf(ds) ensures x in KeysOf(init) + {DiagKey(ds[|ds| - 1])} {
          var i :| 0 <= i < |ds| && DiagKey(ds[i]) == x;
          if i < |ds| - 1 { assert init[i] == ds[i]; }
        }
        forall x | x in KeysOf(init) ensures x in KeysOf(ds) {
          var i :| 0 <= i < |init| && DiagKey(init[i]) == x;
          assert ds[i] == init[i];
        }
      }
    }
  }

  lemma {:induction false} FirstWithKeyFound(ds: seq<Diag>, k: string)
    ensures FirstWithKey(ds, k).Some? <==> k in KeysOf(ds)
    decreases |ds|
  {
    if ds != [] {
      FirstWithKeyFound(ds[1..], k);
      assert KeysOf(ds) == {DiagKey(ds[0])} + KeysOf(ds[1..]) by {
        forall x | x in KeysOf(ds) ensures x in {DiagKey(ds[0])} + KeysOf(ds[1..]) {
          var i :| 0 <= i < |ds| && DiagKey(ds[i]) == x;
          if i > 0 { assert ds[1..][i - 1] == ds[i]; }
        }
        forall x | x in KeysOf(ds[1..]) ensures x in KeysOf(ds) {
          var i :| 0 <= i < |ds[1..]| && DiagKey(ds[1..][i]) == x;
          assert ds[i + 1] == ds[1..][i];
        }
      }
    }
  }

  /** After the merge there is one entry per key, and the keys are exactly those
      of the parsed diagnostics and of the fix diagnostics. */
  lemma MergedMapKeys(base: seq<Diag>, fixes: seq<Diag>)
    ensures MergedMap(base, fixes).Keys == KeysOf(base) + KeysOf(fixes)
  {
    var m := MergedMap(base, fixes);
    forall k ensures k in m <==> k in KeysOf(base) + KeysOf(fixes) {
      MergedMapAt(base, fixes, k);
      LastWithKeyFound(base, k);
      FirstWithKeyFound(fixes, k);
    }
  }

  /** The first loop of `merge_diagnostics`: drain `base` into a map. */
  method KeyBase(base: seq<Diag>) returns (m: map<string, Diag>)
    ensures m == KeyedBase(base)
  {
    m := map[];
    for i := 0 to |base|
      invariant m == KeyedBase(base[..i])
    {
      assert base[..i + 1][..i] == base[..i];
      m := m[DiagKey(base[i]) := base[i]];
    }
    assert base[..|base|] == base;
  }

  /** The second loop of `merge_diagnostics`: fold the fix diagnostics in. */
  method AbsorbFixes(start: map<string, Diag>, fixes: seq<Diag>) returns (m: map<string, Diag>)
    ensures m == Absorb(start, fixes)
  {
    m := start;
    for j := 0 to |fixes|
      invariant m == Absorb(start, fixes[..j])
    {
      assert fixes[..j + 1][..j] == fixes[..j];
      var f := fixes[j];
      var key := DiagKey(f);
      if key in m {
        m := m[key := m[key].(fixes := m[key].fixes + f.fixes)];
      } else {
        m := m[key := f];
      }
    }
    assert fixes[..|fixes|] == fixes;
  }

  lemma KeysOfSnoc(ds: seq<Diag>, d: Diag)
    ensures KeysOf(ds + [d]) == KeysOf(ds) + {DiagKey(d)}
  {
    var all := ds + [d];
    forall x | x in KeysOf(all) ensures x in KeysOf(ds) + {DiagKey(d)} {
      var i :| 0 <= i < |all| && DiagKey(all[i]) == x;
      if i < |ds| { assert all[i] == ds[i]; }
    }
    forall x | x in KeysOf(ds) ensures x in KeysOf(all) {
      var i :| 0 <= i < |ds| && DiagKey(ds[i]) == x;
      assert all[i] == ds[i];
    }
    assert all[|ds|] == d;
  }

  lemma KeyedBaseKeyed(base: seq<Diag>)
    ensures KeyedBy(KeyedBase(base))
  {
    forall k | k in KeyedBase(base) ensures DiagKey(KeyedBase(base)[k]) == k {
      KeyedBaseAt(base, k);
    }
  }

  lemma AbsorbKeyed(m: map<string, Diag>, fixes: seq<Diag>)
    requires KeyedBy(m)
    ensures KeyedBy(Absorb(m, fixes))
  {
    forall k | k in Absorb(m, fixes) ensures DiagKey(Absorb(m, fixes)[k]) == k {
      AbsorbAt(m, fixes, k);
    }
  }

  /** Some enumeration of a set of keys, each once. */
  method KeyOrder(keys: set<string>) returns (ks: seq<string>)
    ensures forall i, j :: 0 <= i < j < |ks| ==> ks[i] != ks[j]
    ensures forall k :: k in keys <==> k in ks
  {
    var rest := keys;
    ks := [];
    while rest != {}
      invariant forall k :: k in keys <==> k in rest || k in ks
      invariant forall k :: k in rest ==> k !in ks
      invariant forall i, j :: 0 <= i < j < |ks| ==> ks[i] != ks[j]
      decreases rest
    {
      var k :| k in rest;
      ks := ks + [k];
      rest := rest - {k};
    }
  }

  /** `into_values().collect()`: every value once, in whatever order the map yields. */
  method Values(m: map<string, Diag>) returns (vs: seq<Diag>)
    requires KeyedBy(m)
    ensures forall i :: 0 <= i < |vs| ==> DiagKey(vs[i]) in m && m[DiagKey(vs[i])] == vs[i]
    ensures forall i, j :: 0 <= i < j < |vs| ==> DiagKey(vs[i]) != DiagKey(vs[j])
    ensures KeysOf(vs) == m.Keys
  {
    var ks := KeyOrder(m.Keys);
    vs := seq(|ks|, i requires 0 <= i < |ks| => m[ks[i]]);
    assert forall i :: 0 <= i < |vs| ==> DiagKey(vs[i]) == ks[i];
    forall k | k in m ensures k in KeysOf(vs) {
      var i :| 0 <= i < |ks| && ks[i] == k;
      assert DiagKey(vs[i]) == k;
    }
  }

  /** `merged` is a possible result of `merge_diagnostics` on `base` and `fixes`
      (any order of the map's values). */
  ghost predicate MergeOf(base: seq<Diag>, fixes: seq<Diag>, merged: seq<Diag>) {
    && (forall i :: 0 <= i < |merged| ==> Expected(base, fixes, DiagKey(merged[i])) == Some(merged[i]))
    && (forall i, j :: 0 <= i < j < |merged| ==> DiagKey(merged[i]) != DiagKey(merged[j]))
    && KeysOf(merged) == KeysOf(base) + KeysOf(fixes)
  }

  /** `merge_diagnostics`: drains `base` into a map keyed by `diag_key`, folds the
      fix diagnostics in, and returns the map's values in an unspecified order. */
  method MergeDiagnostics(base: seq<Diag>, fixes: seq<Diag>) returns (merged: seq<Diag>)
    ensures forall i :: 0 <= i < |merged| ==> Expected(base, fixes, DiagKey(merged[i])) == Some(merged[i])
    ensures forall i, j :: 0 <= i < j < |merged| ==> DiagKey(merged[i]) != DiagKey(merged[j])
    ensures KeysOf(merged) == KeysOf(base) + KeysOf(fixes)
  {
    var m := KeyBase(base);
    KeyedBaseKeyed(base);
    AbsorbKeyed(m, fixes);
    m := AbsorbFixes(m, fixes);
    merged := Values(m);
    MergedMapKeys(base, fixes);
    forall i | 0 <= i < |merged| ensures Expected(base, fixes, DiagKey(merged[i])) == Some(merged[i]) {
      MergedMapAt(base, fixes, DiagKey(merged[i]));
    }
  }

  // ---------------------------------------------------------------------------
  // Per-file caps

  function Min(a: nat, b: nat): nat {
    if a <= b then a else b
  }

  /** The number of fixes over all diagnostics of `ds`. */
  function TotalFixes(ds: seq<Diag>): nat
    decreases |ds|
  {
    if ds == [] then 0 else TotalFixes(ds[..|ds| - 1]) + |ds[|ds| - 1].fixes|
  }

  /** The fix budget left for the diagnostic that follows `before`, when every
      earlier diagnostic took as many fixes as it could. */
  function Remaining(maxFixes: nat, before: seq<Diag>): nat {
    if TotalFixes(before) >= maxFixes then 0 else maxFixes - TotalFixes(before)
  }

  lemma TotalFixesStep(ds: seq<Diag>, i: nat)
    requires i < |ds|
    ensures TotalFixes(ds[..i + 1]) == TotalFixes(ds[..i]) + |ds[i].fixes|
  {
    assert ds[..i + 1][..i] == ds[..i];
  }

  lemma {:induction false} TotalFixesPrefix(ds: seq<Diag>, i: nat)
    requires i <= |ds|
    ensures TotalFixes(ds[..i]) <= TotalFixes(ds)
    decreases |ds| - i
  {
    if i < |ds| {
      TotalFixesStep(ds, i);
      TotalFixesPrefix(ds, i + 1);
    } else {
      assert ds[..i] == ds;
    }
  }

  /** Diagnostic `j` of `ds` after the greedy fix budget of `maxFixes`. */
  function CapAt(ds: seq<Diag>, maxFixes: nat, j: nat): Diag
    requires j < |ds|
  {
    ds[j].(fixes := ds[j].fixes[..Min(|ds[j].fixes|, Remaining(maxFixes, ds[..j]))])
  }

  /** All of `ds` after the greedy fix budget of `maxFixes`. */
  function Capped(ds: seq<Diag>, maxFixes: nat): (r: seq<Diag>)
    ensures |r| == |ds|
  {
    seq(|ds|, j requires 0 <= j < |ds| => CapAt(ds, maxFixes, j))
  }

  lemma RemainingStep(maxFixes: nat, ds: seq<Diag>, i: nat)
    requires i < |ds|
    ensures Remaining(maxFixes, ds[..i + 1])
         == if |ds[i].fixes| >= Remaining(maxFixes, ds[..i]) then 0
            else Remaining(maxFixes, ds[..i]) - |ds[i].fixes|
  {
    TotalFixesStep(ds, i);
  }

  /** The fix-budget loop of `apply_diagnostic_caps`, with its running `remaining`. */
  method CapFixes(ds: seq<Diag>, maxFixes: nat) returns (r: seq<Diag>)
    requires maxFixes > 0
    ensures r == Capped(ds, maxFixes)
  {
    r := ds;
    var remaining: nat := maxFixes;
    for i := 0 to |ds|
      invariant |r| == |ds|
      invariant forall j :: i <= j < |ds| ==> r[j] == ds[j]
      invariant forall j :: 0 <= j < i ==> r[j] == CapAt(ds, maxFixes, j)
      invariant remaining == Remaining(maxFixes, ds[..i])
    {
      RemainingStep(maxFixes, ds, i);
      var d := r[i];
      if |d.fixes| == 0 {
        assert d.fixes[..0] == d.fixes;
      } else if remaining == 0 {
        r := r[i := d.(fixes := [])];
      } else if |d.fixes| > remaining {
        r := r[i := d.(fixes := d.fixes[..remaining])];
        remaining := 0;
      } else {
        assert d.fixes[..|d.fixes|] == d.fixes;
        remaining := remaining - |d.fixes|;
      }
      assert r[i] == CapAt(ds, maxFixes, i);
    }
  }

  /** The cap only shortens fix lists, and every other field stays as it was. */
  lemma CappedShape(ds: seq<Diag>, maxFixes: nat)
    ensures forall j :: 0 <= j < |ds| ==> Capped(ds, maxFixes)[j] == ds[j].(fixes := Capped(ds, maxFixes)[j].fixes)
    ensures forall j :: 0 <= j < |ds| ==>
      |Capped(ds, maxFixes)[j].fixes| <= |ds[j].fixes|
      && Capped(ds, maxFixes)[j].fixes == ds[j].fixes[..|Capped(ds, maxFixes)[j].fixes|]
  {
  }

  /** The greedy rule: each diagnostic keeps as many fixes as the budget left by
      the earlier ones allows. */
  lemma CappedGreedy(ds: seq<Diag>, maxFixes: nat, j: nat)
    requires j < |ds|
    ensures |Capped(ds, maxFixes)[j].fixes| == Min(|ds[j].fixes|, Remaining(maxFixes, ds[..j]))
  {
  }

  lemma CapAtPrefix(ds: seq<Diag>, maxFixes: nat, k: nat, j: nat)
    requires j < k <= |ds|
    ensures CapAt(ds[..k], maxFixes, j) == CapAt(ds, maxFixes, j)
  {
    assert ds[..k][..j] == ds[..j];
  }

  /** All fixes are kept up to the budget and no more. */
  lemma {:induction false} CappedTotal(ds: seq<Diag>, maxFixes: nat)
    ensures TotalFixes(Capped(ds, maxFixes)) == Min(TotalFixes(ds), maxFixes)
    decreases |ds|
  {
    if ds != [] {
      var n := |ds| - 1;
      var init := ds[..n];
      CappedTotal(init, maxFixes);
      var c := Capped(ds, maxFixes);
      assert c[..n] == Capped(init, maxFixes) by {
        forall j | 0 <= j < n ensures c[j] == Capped(init, maxFixes)[j] {
          CapAtPrefix(ds, maxFixes, n, j);
        }
      }
      assert TotalFixes(c) == TotalFixes(c[..n]) + |c[n].fixes|;
      assert TotalFixes(ds) == TotalFixes(init) + |ds[n].fixes|;
    }
  }

  /** Within the budget, the cap takes nothing away. */
  lemma CappedWithinBudget(ds: seq<Diag>, maxFixes: nat)
    requires TotalFixes(ds) <= maxFixes
    ensures Capped(ds, maxFixes) == ds
  {
    forall j | 0 <= j < |ds| ensures CapAt(ds, maxFixes, j) == ds[j] {
      TotalFixesStep(ds, j);
      TotalFixesPrefix(ds, j + 1);
      assert ds[j].fixes[..|ds[j].fixes|] == ds[j].fixes;
    }
  }

  /** `r` is what `apply_diagnostic_caps` leaves of `diags`. */
  predicate CapsHold(diags: seq<Diag>, maxDiags: nat, maxFixes: nat, r: seq<Diag>) {
    && (maxDiags > 0 ==> |r| == Min(|diags|, maxDiags))
    && (maxDiags == 0 ==> |r| == |diags|)
    && (maxFixes == 0 ==> |r| <= |diags| && r == diags[..|r|])
    && (maxFixes > 0 ==> |r| <= |diags| && r == Capped(diags[..|r|], maxFixes))
  }

  /** `apply_diagnostic_caps`: keeps the first `maxDiags` diagnostics (0 means no
      limit), then, when `maxFixes` is not 0, hands out at most `maxFixes` fixes to
      the diagnostics in order, truncating each fix list to what is left. */
  method ApplyDiagnosticCaps(diags: seq<Diag>, maxDiags: U32, maxFixes: U32) returns (r: seq<Diag>)
    ensures maxDiags > 0 ==> |r| == Min(|diags|, maxDiags)
    ensures maxDiags == 0 ==> |r| == |diags|
    ensures maxFixes == 0 ==> r == diags[..|r|]
    ensures maxFixes > 0 ==> r == Capped(diags[..|r|], maxFixes)
  {
    var n := |diags|;
    if maxDiags > 0 && |diags| > maxDiags {
      n := maxDiags;
    }
    var kept := diags[..n];
    if maxFixes == 0 {
      r := kept;
    } else {
      r := CapFixes(kept, maxFixes);
    }
  }
}
