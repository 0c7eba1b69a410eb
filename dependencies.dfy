/**
  The dependency map of scripts/analyze_deps.py: requirement key -> specifier ->
  the libraries that declare it, built by `record_dep` while the packages are
  scanned (`get_lib_deps`, `get_wheel_deps`).
 */
module Dependencies {
  import opened Wrappers
  import opened Requirements
  import opened Folds

  /** requirement key -> specifier -> declaring libraries, in declaration order. */
  type SpecMap = map<string, map<string, seq<string>>>

  /** `dependencies[name][spec]`, or the empty list when either level is missing. */
  function Lookup(m: SpecMap, name: string, spec: string): seq<string>
  {
    if name in m && spec in m[name] then m[name][spec] else []
  }

  /** The map after `record_dep` has recorded `lib` under `name` and `spec`. */
  function Recorded(m: SpecMap, name: string, spec: string, lib: string): (r: SpecMap)
    ensures r.Keys == m.Keys + {name}
    ensures r[name].Keys == (if name in m then m[name].Keys else {}) + {spec}
    ensures Lookup(r, name, spec) == Lookup(m, name, spec) + [lib]
    ensures forall n, s :: n != name || s != spec ==> Lookup(r, n, s) == Lookup(m, n, s)
    ensures forall n :: n in m && n != name ==> r[n] == m[n]
  {
    var specs := if name in m then m[name] else map[];
    var libs := if spec in specs then specs[spec] else [];
    m[name := specs[spec := libs + [lib]]]
  }

  /** A specifier map as the scan builds it: parse_req's specifiers, each with at least one library. */
  ghost predicate WellFormedSpecs(specs: map<string, seq<string>>)
  {
    |specs| > 0 && forall s :: s in specs ==> IsSpec(s) && |specs[s]| > 0
  }

  /** `record_dep(m, req, lib)` as a value: `None` where it raises because `req` does not parse. */
  function RecordDep(m: SpecMap, req: string, lib: string): Option<SpecMap>
  {
    match ParseReq(req)
    case None => None
    case Some((name, spec)) => Some(Recorded(m, name, spec, lib))
  }

  /** Every key is a requirement key and every level is non-empty. */
  ghost predicate WellFormed(m: SpecMap)
  {
    forall n :: n in m ==> IsKey(n) && WellFormedSpecs(m[n])
  }

  lemma RecordedWellFormed(m: SpecMap, name: string, spec: string, lib: string)
    requires WellFormed(m) && IsKey(name) && IsSpec(spec)
    ensures WellFormed(Recorded(m, name, spec, lib))
  {
    var r := Recorded(m, name, spec, lib);
    var specs := r[name];
    assert spec in specs;
    forall s | s in specs ensures IsSpec(s) && |specs[s]| > 0 {
      assert specs[s] == Lookup(r, name, s);
      if s != spec {
        assert name in m && s in m[name];
        assert Lookup(m, name, s) == m[name][s];
      }
    }
    assert WellFormedSpecs(specs);
    forall n | n in r ensures IsKey(n) && WellFormedSpecs(r[n]) {
      if n != name {
        assert r[n] == m[n];
      }
    }
  }

  /** The nested dictionary that `record_dep` updates in place. */
  class DependencyMap {
    var entries: SpecMap

    constructor ()
      ensures entries == map[]
    {
      entries := map[];
    }

    /**
      `record_dep(self, req, lib)`. When the requirement does not parse, Python
      raises while unpacking the missing result; this returns `false` and
      changes nothing.
     */
    method Record(req: string, lib: string) returns (ok: bool)
      modifies this
      ensures ok <==> RecordDep(old(entries), req, lib).Some?
      ensures ok <==> ParseReq(req).Some?
      ensures entries == if ok then RecordDep(old(entries), req, lib).value else old(entries)
    {
      var parsed := ParseReq(req);
      if parsed.None? {
        return false;
      }
      var (name, spec) := parsed.value;
      ghost var before := entries;
      if name !in entries {
        entries := entries[name := map[]];
      }
      var specs := entries[name];
      if spec !in specs {
        specs := specs[spec := []];
      }
      entries := entries[name := specs[spec := specs[spec] + [lib]]];
      assert entries == before[name := specs[spec := specs[spec] + [lib]]];
      ghost var specs0 := if name in before then before[name] else map[];
      ghost var libs := Lookup(before, name, spec);
      assert specs == specs0[spec := libs];
      assert specs[spec := specs[spec] + [lib]] == specs0[spec := libs + [lib]];
      ok := true;
    }
  }

  // ---------------------------------------------------------------------------
  // Scanning the packages.
  // ---------------------------------------------------------------------------

  datatype PackageInfo = PackageInfo(version: string, source: string)

  /** What parse_setup (or the wheel's METADATA) yields: the version and the requirement strings. */
  datatype Declared = Declared(version: string, requirements: seq<string>)

  /**
    One package found by the locator: its library name, its location, and what
    reading its manifest produced (`None` when that raised).
   */
  datatype Manifest = Manifest(libName: string, source: string, declared: Option<Declared>)

  datatype Scan = Scan(packages: map<string, PackageInfo>, deps: SpecMap)

  /** A requirement string as it reaches record_dep; wheel lines are cleaned first. */
  function Prepared(req: string, wheels: bool): string
  {
    if wheels then CleanWheelRequirement(req) else req
  }

  /** One requirement of a package: cleaned when it comes from a wheel, then recorded. */
  function RecordStep(lib: string, wheels: bool): (SpecMap, string) -> Option<SpecMap>
  {
    (m: SpecMap, req: string) => RecordDep(m, Prepared(req, wheels), lib)
  }

  /**
    The loop over one package's requirements: each is recorded in turn, and the
    first one that does not parse raises, dropping it and all that follow.
   */
  function RecordAll(m: SpecMap, reqs: seq<string>, lib: string, wheels: bool): SpecMap
  {
    FoldUntilFailure(RecordStep(lib, wheels), m, reqs)
  }

  /** One iteration of the scan: skipped and unreadable packages leave no trace. */
  function ScanOne(st: Scan, mf: Manifest, wheels: bool): Scan
  {
    if ShouldSkipLib(mf.libName) || mf.declared.None? then st
    else
      Scan(st.packages[mf.libName := PackageInfo(mf.declared.value.version, mf.source)],
           RecordAll(st.deps, mf.declared.value.requirements, mf.libName, wheels))
  }

  function ScanFrom(st: Scan, ms: seq<Manifest>, wheels: bool): Scan
    decreases |ms|
  {
    if |ms| == 0 then st else ScanFrom(ScanOne(st, ms[0], wheels), ms[1..], wheels)
  }

  /** `get_lib_deps` (wheels = false) and `get_wheel_deps` (wheels = true) on the located packages. */
  ghost function ScanAll(ms: seq<Manifest>, wheels: bool): Scan
  {
    ScanFrom(Scan(map[], map[]), ms, wheels)
  }

  /** The loop over one package's requirements (the body of the `try` in get_lib_deps). */
  method RecordRequirements(dependencies: DependencyMap, reqs: seq<string>, lib: string, wheels: bool)
    modifies dependencies
    ensures dependencies.entries == RecordAll(old(dependencies.entries), reqs, lib, wheels)
  {
    var j := 0;
    while j < |reqs|
      invariant 0 <= j <= |reqs|
      invariant RecordAll(dependencies.entries, reqs[j..], lib, wheels) == RecordAll(old(dependencies.entries), reqs, lib, wheels)
    {
      var req := Prepared(reqs[j], wheels);
      ghost var before := dependencies.entries;
      FoldStep(RecordStep(lib, wheels), before, reqs[j..]);
      assert reqs[j..][0] == reqs[j] && reqs[j..][1..] == reqs[j + 1..];
      var ok := dependencies.Record(req, lib);
      if !ok {
        return;
      }
      assert dependencies.entries == RecordDep(before, req, lib).value;
      j := j + 1;
    }
  }

  /** The loop over the located packages, recording into one DependencyMap. */
  method GetDeps(ms: seq<Manifest>, wheels: bool) returns (packages: map<string, PackageInfo>, deps: SpecMap)
    ensures Scan(packages, deps) == ScanAll(ms, wheels)
  {
    var dependencies := new DependencyMap();
    packages := map[];
    var i := 0;
    while i < |ms|
      invariant 0 <= i <= |ms|
      invariant ScanFrom(Scan(packages, dependencies.entries), ms[i..], wheels) == ScanAll(ms, wheels)
    {
      var mf := ms[i];
      ghost var st := Scan(packages, dependencies.entries);
      assert ms[i..][0] == mf && ms[i..][1..] == ms[i + 1..];
      assert ScanFrom(st, ms[i..], wheels) == ScanFrom(ScanOne(st, mf, wheels), ms[i + 1..], wheels);
      if !ShouldSkipLib(mf.libName) && mf.declared.Some? {
        packages := packages[mf.libName := PackageInfo(mf.declared.value.version, mf.source)];
        RecordRequirements(dependencies, mf.declared.value.requirements, mf.libName, wheels);
      }
      assert Scan(packages, dependencies.entries) == ScanOne(st, mf, wheels);
      i := i + 1;
    }
    deps := dependencies.entries;
  }

  // ---------------------------------------------------------------------------
  // Properties of the scan.
  // ---------------------------------------------------------------------------

  /** A requirement that does not parse cuts the package's list short at that point. */
  lemma FailureDropsRest(m: SpecMap, reqs: seq<string>, lib: string, wheels: bool, k: nat)
    requires k < |reqs| && ParseReq(Prepared(reqs[k], wheels)).None?
    ensures RecordAll(m, reqs, lib, wheels) == RecordAll(m, reqs[..k], lib, wheels)
  {
    FailureStops(RecordStep(lib, wheels), m, reqs, k);
  }

  /** A package that is not skipped and whose manifest was read is recorded, whatever its requirements. */
  lemma ReadPackageRecorded(st: Scan, mf: Manifest, wheels: bool)
    requires !ShouldSkipLib(mf.libName) && mf.declared.Some?
    ensures mf.libName in ScanOne(st, mf, wheels).packages
    ensures ScanOne(st, mf, wheels).packages[mf.libName] == PackageInfo(mf.declared.value.version, mf.source)
  {
  }

  /** Recording never forgets a specifier already present. */
  lemma {:induction false} RecordAllGrows(m: SpecMap, reqs: seq<string>, lib: string, wheels: bool, name: string, spec: string)
    requires name in m && spec in m[name]
    ensures var r := RecordAll(m, reqs, lib, wheels); name in r && spec in r[name]
    decreases |reqs|
  {
    if |reqs| > 0 {
      FoldStep(RecordStep(lib, wheels), m, reqs);
      match ParseReq(Prepared(reqs[0], wheels))
      case None =>
      case Some((n, s)) =>
        RecordAllGrows(Recorded(m, n, s, lib), reqs[1..], lib, wheels, name, spec);
    }
  }

  lemma {:induction false} RecordAllWellFormed(m: SpecMap, reqs: seq<string>, lib: string, wheels: bool)
    requires WellFormed(m)
    ensures WellFormed(RecordAll(m, reqs, lib, wheels))
    decreases |reqs|
  {
    if |reqs| > 0 {
      FoldStep(RecordStep(lib, wheels), m, reqs);
      match ParseReq(Prepared(reqs[0], wheels))
      case None =>
      case Some((n, s)) =>
        RecordedWellFormed(m, n, s, lib);
        RecordAllWellFormed(Recorded(m, n, s, lib), reqs[1..], lib, wheels);
    }
  }

  lemma {:induction false} ScanFromWellFormed(st: Scan, ms: seq<Manifest>, wheels: bool)
    requires WellFormed(st.deps)
    ensures WellFormed(ScanFrom(st, ms, wheels).deps)
    decreases |ms|
  {
    if |ms| > 0 {
      var mf := ms[0];
      if !(ShouldSkipLib(mf.libName) || mf.declared.None?) {
        RecordAllWellFormed(st.deps, mf.declared.value.requirements, mf.libName, wheels);
      }
      ScanFromWellFormed(ScanOne(st, ms[0], wheels), ms[1..], wheels);
    }
  }

  /** The scan only produces well-formed dependency maps. */
  lemma ScanWellFormed(ms: seq<Manifest>, wheels: bool)
    ensures WellFormed(ScanAll(ms, wheels).deps)
  {
    ScanFromWellFormed(Scan(map[], map[]), ms, wheels);
  }
}
