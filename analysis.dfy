/**
  The checking half of scripts/analyze_deps.py's `__main__` block: the
  inconsistent requirements, freeze mode, the comparison with the frozen
  baseline, the violations that overrides do not excuse, the exit code and the
  order of the report.
 */
module Analysis {
  import opened Wrappers
  import opened Ordering
  import opened Requirements
  import opened Dependencies
  import opened Baseline

  // ---------------------------------------------------------------------------
  // Inconsistent requirements.
  // ---------------------------------------------------------------------------

  /** Those of `names` that are declared with other than exactly one specifier, in the order of `names`. */
  function InconsistentAmong(deps: SpecMap, names: seq<string>): seq<string>
    decreases |names|
  {
    if |names| == 0 then []
    else
      var last := names[|names| - 1];
      InconsistentAmong(deps, names[..|names| - 1]) + (if last in deps && |deps[last]| != 1 then [last] else [])
  }

  /** `inconsistent`: the loop over `sorted(dependencies.keys())`. */
  function Inconsistent(deps: SpecMap): seq<string>
  {
    InconsistentAmong(deps, Sorted(deps.Keys))
  }

  lemma {:induction false} InconsistentAmongSorted(deps: SpecMap, names: seq<string>)
    requires SortedBy(names, k => k)
    ensures var r := InconsistentAmong(deps, names);
      && (forall x :: x in r <==> x in names && x in deps && |deps[x]| != 1)
      && SortedBy(r, k => k)
    decreases |names|
  {
    if |names| > 0 {
      var init := names[..|names| - 1];
      var last := names[|names| - 1];
      SortedPrefix(names, k => k, |names| - 1);
      InconsistentAmongSorted(deps, init);
      var r := InconsistentAmong(deps, init);
      assert names == init + [last];
      if last in deps && |deps[last]| != 1 {
        SortedLast(names, k => k);
        AppendSorted(r, last, k => k);
      }
    }
  }

  /**
    `inconsistent` is the sorted list of the requirements whose specifier map
    does not have exactly one key.
   */
  lemma InconsistentExactly(deps: SpecMap)
    ensures Inconsistent(deps) == Sorted(set x | x in deps && |deps[x]| != 1)
  {
    InconsistentAmongSorted(deps, Sorted(deps.Keys));
    SortedUnique(Inconsistent(deps), Sorted(set x | x in deps && |deps[x]| != 1), k => k);
  }

  /** A requirement is in `inconsistent` exactly when it does not have exactly one specifier. */
  lemma InconsistentMembers(deps: SpecMap)
    ensures forall x :: x in Inconsistent(deps) <==> x in deps && |deps[x]| != 1
  {
    InconsistentAmongSorted(deps, Sorted(deps.Keys));
  }

  /** No requirement is inconsistent exactly when every one has a single specifier. */
  lemma NoneInconsistent(deps: SpecMap)
    ensures |Inconsistent(deps)| == 0 <==> Consistent(deps)
  {
    InconsistentMembers(deps);
    var r := Inconsistent(deps);
    if |r| > 0 {
      assert r[0] in r;
    }
    if !Consistent(deps) {
      var x :| x in deps && |deps[x]| != 1;
      assert x in r;
    }
  }

  /** The loop over `sorted(dependencies.keys())` that collects `inconsistent`. */
  method FindInconsistent(deps: SpecMap) returns (inconsistent: seq<string>)
    ensures inconsistent == Inconsistent(deps)
  {
    inconsistent := CollectInconsistent(deps, Sorted(deps.Keys));
  }

  /** The body of that loop, over the given names. */
  method CollectInconsistent(deps: SpecMap, names: seq<string>) returns (inconsistent: seq<string>)
    requires forall x :: x in names ==> x in deps
    ensures inconsistent == InconsistentAmong(deps, names)
  {
    inconsistent := [];
    for i := 0 to |names|
      invariant inconsistent == InconsistentAmong(deps, names[..i])
    {
      var requirement := names[i];
      assert names[..i + 1][..i] == names[..i];
      if |deps[requirement]| != 1 {
        inconsistent := inconsistent + [requirement];
      }
    }
    assert names[..|names|] == names;
  }

  // ---------------------------------------------------------------------------
  // Freeze mode.
  // ---------------------------------------------------------------------------

  /**
    `--freeze`: with an inconsistent requirement nothing is written and the exit
    code is 1; otherwise one `name + spec` line per requirement, in sorted name
    order, and exit code 0.
   */
  method FreezeMode(deps: SpecMap) returns (written: seq<string>, exitCode: int)
    ensures exitCode == 0 <==> Consistent(deps)
    ensures exitCode != 0 ==> exitCode == 1 && written == []
    ensures exitCode == 0 ==> written == FreezeLines(deps)
  {
    var inconsistent := FindInconsistent(deps);
    NoneInconsistent(deps);
    if |inconsistent| > 0 {
      return [], 1;
    }
    written := WriteFrozen(deps);
    exitCode := 0;
  }

  /** The loop that writes `requirement + spec` for every requirement. */
  method WriteFrozen(deps: SpecMap) returns (written: seq<string>)
    requires Consistent(deps)
    ensures written == FreezeLines(deps)
  {
    written := WriteLines(deps, Sorted(deps.Keys));
  }

  /** The body of that loop, over the given names. */
  method WriteLines(deps: SpecMap, names: seq<string>) returns (written: seq<string>)
    requires forall x :: x in names ==> x in deps && |deps[x]| == 1
    ensures written == FrozenLines(deps, names)
  {
    written := [];
    for i := 0 to |names|
      invariant written == FrozenLines(deps, names)[..i]
    {
      var requirement := names[i];
      var spec := TheSpec(deps[requirement]);
      assert FrozenLines(deps, names)[..i + 1] == FrozenLines(deps, names)[..i] + [requirement + spec];
      written := written + [requirement + spec];
    }
    assert FrozenLines(deps, names)[..|names|] == FrozenLines(deps, names);
  }

  // ---------------------------------------------------------------------------
  // Comparison with the frozen baseline.
  // ---------------------------------------------------------------------------

  /** What `dict_compare` returns: `added`, `removed` and `modified`. */
  datatype Diff<K, V> = Diff(added: set<K>, removed: set<K>, modified: map<K, (V, V)>)

  /** `dict_compare(d1, d2)`: the keys only in `d1`, the keys only in `d2`, and the shared keys whose values differ. */
  function DictCompare<K(!new), V(==)>(d1: map<K, V>, d2: map<K, V>): (r: Diff<K, V>)
    ensures forall k :: k in r.added <==> k in d1 && k !in d2
    ensures forall k :: k in r.removed <==> k in d2 && k !in d1
    ensures forall k :: k in r.modified <==> k in d1 && k in d2 && d1[k] != d2[k]
    ensures forall k :: k in r.modified ==> r.modified[k] == (d1[k], d2[k])
  {
    var shared := d1.Keys * d2.Keys;
    Diff(d1.Keys - d2.Keys, d2.Keys - d1.Keys, map o | o in shared && d1[o] != d2[o] :: (d1[o], d2[o]))
  }

  /**
    The three parts are pairwise disjoint, and every key of either map is in
    exactly one of them or is shared with equal values.
   */
  lemma DictComparePartition<K(!new), V>(d1: map<K, V>, d2: map<K, V>)
    ensures var r := DictCompare(d1, d2);
      && r.added * r.removed == {} && r.added * r.modified.Keys == {} && r.removed * r.modified.Keys == {}
      && d1.Keys + d2.Keys == r.added + r.removed + r.modified.Keys + (set k | k in d1 && k in d2 && d1[k] == d2[k])
  {
    var r := DictCompare(d1, d2);
    var same := set k | k in d1 && k in d2 && d1[k] == d2[k];
    forall k | k in d1.Keys + d2.Keys ensures k in r.added + r.removed + r.modified.Keys + same {
      if k in d1 && k in d2 && d1[k] == d2[k] {
        assert k in same;
      }
    }
  }

  /** `flat_deps`: each requirement and its sorted list of specifiers. */
  function FlatDeps(deps: SpecMap): (flat: map<string, seq<string>>)
    ensures flat.Keys == deps.Keys
    ensures forall r :: r in flat ==> flat[r] == Sorted(deps[r].Keys)
  {
    map r | r in deps :: Sorted(deps[r].Keys)
  }

  /** Python's `set(xs)`. */
  function Elems(xs: seq<string>): set<string>
  {
    set x | x in xs
  }

  /** `set(current_specs) - set(frozen_specs)` for one changed requirement. */
  function Unmatched(specs: (seq<string>, seq<string>)): set<string>
  {
    Elems(specs.1) - Elems(specs.0)
  }

  /**
    `non_overridden_libs`: the libraries declaring `req` with `spec`, less those
    that an override allows for exactly that requirement and specifier.
   */
  function Offending(deps: SpecMap, overrides: SpecMap, req: string, spec: string): set<string>
  {
    if req in overrides && spec in overrides[req] then Elems(Lookup(deps, req, spec)) - Elems(overrides[req][spec])
    else Elems(Lookup(deps, req, spec))
  }

  /** The offending libraries are the declaring ones that no override for that exact specifier names. */
  lemma OffendingIsDifference(deps: SpecMap, overrides: SpecMap, req: string, spec: string)
    ensures forall lib :: (lib in Offending(deps, overrides, req, spec)
      <==> lib in Lookup(deps, req, spec) && lib !in Lookup(overrides, req, spec))
  {
  }

  /** Whether an unmatched specifier counts: `len(non_overridden_libs) > 0`. */
  function IsViolation(deps: SpecMap, overrides: SpecMap): (string, string) -> bool
  {
    (req: string, spec: string) => Offending(deps, overrides, req, spec) != {}
  }

  /** The (requirement, specifier) pairs among the changed requirements `reqs` that `bad` counts. */
  function ViolationsAmong(changed: map<string, (seq<string>, seq<string>)>, reqs: set<string>, bad: (string, string) -> bool): set<(string, string)>
  {
    set r, s | r in reqs && r in changed && s in Unmatched(changed[r]) && bad(r, s) :: (r, s)
  }

  /** Every violation: `non_overridden_reqs_count` is its size. */
  function Violations(deps: SpecMap, overrides: SpecMap, changed: map<string, (seq<string>, seq<string>)>): set<(string, string)>
  {
    ViolationsAmong(changed, changed.Keys, IsViolation(deps, overrides))
  }

  /**
    A specifier of a changed requirement is a violation exactly when it is not
    frozen and some library declares it without an override for it.
   */
  lemma ViolationExactly(deps: SpecMap, overrides: SpecMap, changed: map<string, (seq<string>, seq<string>)>, req: string, spec: string)
    ensures (req, spec) in Violations(deps, overrides, changed) <==>
      && req in changed && spec in changed[req].1 && spec !in changed[req].0
      && exists lib :: lib in Lookup(deps, req, spec) && lib !in Lookup(overrides, req, spec)
  {
    OffendingIsDifference(deps, overrides, req, spec);
    var off := Offending(deps, overrides, req, spec);
    if (req, spec) in Violations(deps, overrides, changed) {
      var lib :| lib in off;
    }
    if exists lib :: lib in Lookup(deps, req, spec) && lib !in Lookup(overrides, req, spec) {
      var lib :| lib in Lookup(deps, req, spec) && lib !in Lookup(overrides, req, spec);
      assert lib in off;
    }
  }

  /** The violations of one changed requirement. */
  function PairsFor(req: string, specs: set<string>, bad: (string, string) -> bool): set<(string, string)>
  {
    set s | s in specs && bad(req, s) :: (req, s)
  }

  lemma ViolationsAmongStep(changed: map<string, (seq<string>, seq<string>)>, done: set<string>, req: string, bad: (string, string) -> bool)
    requires req in changed && req !in done
    ensures var before := ViolationsAmong(changed, done, bad);
      var added := PairsFor(req, Unmatched(changed[req]), bad);
      && ViolationsAmong(changed, done + {req}, bad) == before + added
      && |before + added| == |before| + |added|
  {
    var before := ViolationsAmong(changed, done, bad);
    var added := PairsFor(req, Unmatched(changed[req]), bad);
    assert before * added == {} by {
      forall p | p in added ensures p !in before {
        assert p.0 == req;
      }
    }
  }

  lemma PairsForStep(req: string, seen: set<string>, spec: string, bad: (string, string) -> bool)
    requires spec !in seen
    ensures (req, spec) !in PairsFor(req, seen, bad)
    ensures PairsFor(req, seen + {spec}, bad) == PairsFor(req, seen, bad) + (if bad(req, spec) then {(req, spec)} else {})
  {
  }

  /**
    The loops over `changed_reqs` and their unmatched specifiers that count the
    violations. analyze_deps.py walks a dictionary and a set; the count does not
    depend on the order, so the model walks both in sorted order.
   */
  method CountViolations(deps: SpecMap, overrides: SpecMap, changed: map<string, (seq<string>, seq<string>)>) returns (count: nat)
    ensures count == |Violations(deps, overrides, changed)|
  {
    var names := Sorted(changed.Keys);
    SortedDistinct(names, k => k);
    count := CountChanged(deps, overrides, changed, names);
    TotalForPairs(changed, names, IsViolation(deps, overrides));
    assert Elems(names) == changed.Keys;
  }

  /** The outer loop over the changed requirements `names`. */
  method CountChanged(deps: SpecMap, overrides: SpecMap, changed: map<string, (seq<string>, seq<string>)>, names: seq<string>) returns (count: nat)
    requires forall r :: r in names ==> r in changed
    ensures count == TotalFor(changed, names, IsViolation(deps, overrides))
  {
    ghost var bad := IsViolation(deps, overrides);
    count := 0;
    for i := 0 to |names|
      invariant count == TotalFor(changed, names[..i], bad)
    {
      var changedReq := names[i];
      var n := CountUnmatched(deps, overrides, changedReq, Unmatched(changed[changedReq]));
      assert names[..i + 1][..i] == names[..i];
      count := count + n;
    }
    assert names[..|names|] == names;
  }

  /** No element occurs twice. */
  predicate Distinct(xs: seq<string>)
  {
    forall i, j :: 0 <= i < j < |xs| ==> xs[i] != xs[j]
  }

  /** The violations of the changed requirements `names`, counted requirement by requirement. */
  function TotalFor(changed: map<string, (seq<string>, seq<string>)>, names: seq<string>, bad: (string, string) -> bool): nat
    requires forall r :: r in names ==> r in changed
  {
    if |names| == 0 then 0
    else
      var last := names[|names| - 1];
      TotalFor(changed, names[..|names| - 1], bad) + |PairsFor(last, Unmatched(changed[last]), bad)|
  }

  /** Counting requirement by requirement counts every violation once. */
  lemma {:induction false} TotalForPairs(changed: map<string, (seq<string>, seq<string>)>, names: seq<string>, bad: (string, string) -> bool)
    requires forall r :: r in names ==> r in changed
    requires Distinct(names)
    ensures TotalFor(changed, names, bad) == |ViolationsAmong(changed, Elems(names), bad)|
    decreases |names|
  {
    if |names| > 0 {
      var init := names[..|names| - 1];
      var last := names[|names| - 1];
      assert forall r :: r in init ==> r in names;
      TotalForPairs(changed, init, bad);
      assert Elems(names) == Elems(init) + {last};
      ViolationsAmongStep(changed, Elems(init), last, bad);
    }
  }

  /** The inner loop: one more count for each unmatched specifier with an offending library. */
  method CountUnmatched(deps: SpecMap, overrides: SpecMap, req: string, unmatched: set<string>) returns (count: nat)
    ensures count == |PairsFor(req, unmatched, IsViolation(deps, overrides))|
  {
    var specs := Sorted(unmatched);
    SortedDistinct(specs, k => k);
    count := CountSpecs(deps, overrides, req, specs);
    CountForPairs(req, specs, IsViolation(deps, overrides));
    assert Elems(specs) == unmatched;
  }

  method CountSpecs(deps: SpecMap, overrides: SpecMap, req: string, specs: seq<string>) returns (count: nat)
    ensures count == CountFor(req, specs, IsViolation(deps, overrides))
  {
    ghost var bad := IsViolation(deps, overrides);
    count := 0;
    for i := 0 to |specs|
      invariant count == CountFor(req, specs[..i], bad)
    {
      var spec := specs[i];
      var nonOverridden := Offending(deps, overrides, req, spec);
      assert specs[..i + 1][..i] == specs[..i];
      if nonOverridden != {} {
        count := count + 1;
      }
    }
    assert specs[..|specs|] == specs;
  }

  /** The number of specifiers in `specs` that `bad` counts for `req`. */
  function CountFor(req: string, specs: seq<string>, bad: (string, string) -> bool): nat
  {
    if |specs| == 0 then 0
    else CountFor(req, specs[..|specs| - 1], bad) + (if bad(req, specs[|specs| - 1]) then 1 else 0)
  }

  /** Counting a sequence without repeats counts the violations among its members. */
  lemma {:induction false} CountForPairs(req: string, specs: seq<string>, bad: (string, string) -> bool)
    requires Distinct(specs)
    ensures CountFor(req, specs, bad) == |PairsFor(req, Elems(specs), bad)|
    decreases |specs|
  {
    if |specs| > 0 {
      var init := specs[..|specs| - 1];
      var last := specs[|specs| - 1];
      CountForPairs(req, init, bad);
      assert Elems(specs) == Elems(init) + {last};
      PairsForStep(req, Elems(init), last, bad);
    }
  }

  // ---------------------------------------------------------------------------
  // The outcome of a check against the baseline.
  // ---------------------------------------------------------------------------

  /** What the check computes: the report's figures and the exit code. */
  datatype Report = Report(
    inconsistent: seq<string>,
    baseline: Baseline,
    missingReqs: set<string>,
    newReqs: set<string>,
    changedReqs: map<string, (seq<string>, seq<string>)>,
    violations: nat,
    exitCode: int)

  /**
    The comparison is made only when the baseline has a frozen requirement; the
    exit code is 1 when a requirement is inconsistent, when one is not frozen,
    or when a violation is not excused.
   */
  function Judge(deps: SpecMap, b: Baseline): (r: Report)
    ensures r.exitCode == 0 || r.exitCode == 1
  {
    var inconsistent := Inconsistent(deps);
    var diff := if b.frozen != map[] then DictCompare(b.frozen, FlatDeps(deps)) else Diff({}, {}, map[]);
    var violations := if b.frozen != map[] then |Violations(deps, b.overrides, diff.modified)| else 0;
    var failed := |inconsistent| > 0 || diff.removed != {} || violations > 0;
    Report(inconsistent, b, diff.added, diff.removed, diff.modified, violations, if failed then 1 else 0)
  }

  /** Checking the dependencies against a baseline file, or against none when it cannot be opened. */
  function CheckOutcome(deps: SpecMap, file: Option<seq<string>>): Report
  {
    Judge(deps, ReadBaseline(file))
  }

  /** The check half of `__main__`, step by step. */
  method CheckMode(deps: SpecMap, file: Option<seq<string>>) returns (report: Report)
    ensures report == CheckOutcome(deps, file)
  {
    var inconsistent := FindInconsistent(deps);
    var exitCode := if |inconsistent| > 0 then 1 else 0;
    var frozen, overrides, overrideCount := ParseBaseline(file);
    var missingReqs: set<string>, newReqs: set<string> := {}, {};
    var changedReqs: map<string, (seq<string>, seq<string>)> := map[];
    var violations := 0;
    if frozen != map[] {
      var diff := DictCompare(frozen, FlatDeps(deps));
      missingReqs, newReqs, changedReqs := diff.added, diff.removed, diff.modified;
      if newReqs != {} {
        exitCode := 1;
      }
      violations := CountViolations(deps, overrides, changedReqs);
      if violations > 0 {
        exitCode := 1;
      }
    }
    report := Report(inconsistent, Baseline(frozen, overrides, overrideCount), missingReqs, newReqs, changedReqs, violations, exitCode);
  }

  /**
    A specifier of a frozen requirement that is not in its frozen list and that
    some library declares without an override for it.
   */
  ghost predicate Unexcused(deps: SpecMap, overrides: SpecMap, frozen: map<string, seq<string>>, r: string, s: string)
  {
    && r in deps && r in frozen && s in deps[r] && s !in frozen[r]
    && exists lib :: lib in deps[r][s] && lib !in Lookup(overrides, r, s)
  }

  /** The violations of a comparison are exactly the unexcused specifiers. */
  lemma ViolationsUnexcused(deps: SpecMap, overrides: SpecMap, frozen: map<string, seq<string>>)
    ensures var changed := DictCompare(frozen, FlatDeps(deps)).modified;
      forall r, s :: (r, s) in Violations(deps, overrides, changed) <==> Unexcused(deps, overrides, frozen, r, s)
  {
    var flat := FlatDeps(deps);
    var changed := DictCompare(frozen, flat).modified;
    forall r, s ensures (r, s) in Violations(deps, overrides, changed) <==> Unexcused(deps, overrides, frozen, r, s) {
      ViolationExactly(deps, overrides, changed, r, s);
      if r in deps && r in frozen {
        assert flat[r] == Sorted(deps[r].Keys);
        if s in deps[r] {
          assert Lookup(deps, r, s) == deps[r][s];
          if s !in frozen[r] {
            assert s in flat[r];
            assert r in changed;
          }
        }
      }
    }
  }

  /** Every declared requirement is frozen. */
  ghost predicate AllFrozen(deps: SpecMap, frozen: map<string, seq<string>>)
  {
    forall r :: r in deps ==> r in frozen
  }

  /** No specifier is unexcused. */
  ghost predicate AllExcused(deps: SpecMap, overrides: SpecMap, frozen: map<string, seq<string>>)
  {
    forall r, s :: !Unexcused(deps, overrides, frozen, r, s)
  }

  /**
    A passing check: every requirement is consistent and, when the baseline
    freezes anything, every requirement is frozen and every specifier excused.
   */
  ghost predicate Passes(deps: SpecMap, b: Baseline)
  {
    Consistent(deps) && (b.frozen != map[] ==> AllFrozen(deps, b.frozen) && AllExcused(deps, b.overrides, b.frozen))
  }

  /** The exit code is 0 exactly when the check passes. */
  lemma ExitCodeMeaning(deps: SpecMap, b: Baseline)
    ensures Judge(deps, b).exitCode == 0 <==> Passes(deps, b)
  {
    NoneInconsistent(deps);
    if b.frozen != map[] {
      NoneNew(deps, b.frozen);
      NoneViolated(deps, b.overrides, b.frozen);
    }
  }

  /** The comparison finds no new requirement exactly when every declared one is frozen. */
  lemma NoneNew(deps: SpecMap, frozen: map<string, seq<string>>)
    ensures DictCompare(frozen, FlatDeps(deps)).removed == {} <==> AllFrozen(deps, frozen)
  {
    var removed := DictCompare(frozen, FlatDeps(deps)).removed;
    if !AllFrozen(deps, frozen) {
      var r :| r in deps && r !in frozen;
      assert r in removed;
    }
  }

  /** The comparison counts no violation exactly when every specifier is excused. */
  lemma NoneViolated(deps: SpecMap, overrides: SpecMap, frozen: map<string, seq<string>>)
    ensures |Violations(deps, overrides, DictCompare(frozen, FlatDeps(deps)).modified)| == 0
      <==> AllExcused(deps, overrides, frozen)
  {
    var v := Violations(deps, overrides, DictCompare(frozen, FlatDeps(deps)).modified);
    ViolationsUnexcused(deps, overrides, frozen);
    if v != {} {
      var p :| p in v;
      assert Unexcused(deps, overrides, frozen, p.0, p.1);
    }
    if !AllExcused(deps, overrides, frozen) {
      var r, s :| Unexcused(deps, overrides, frozen, r, s);
      assert (r, s) in v;
    }
  }

  /** A requirement that is declared but not frozen fails the check. */
  lemma NewRequirementFails(deps: SpecMap, b: Baseline, r: string)
    requires b.frozen != map[] && r in deps && r !in b.frozen
    ensures Judge(deps, b).exitCode == 1
  {
    ExitCodeMeaning(deps, b);
  }

  /** Freezing a requirement that no library declares changes nothing in the verdict. */
  lemma MissingIgnored(deps: SpecMap, b: Baseline, k: string, specs: seq<string>)
    requires b.frozen != map[] && k !in deps
    ensures Judge(deps, b.(frozen := b.frozen[k := specs])).exitCode == Judge(deps, b).exitCode
  {
    var b' := b.(frozen := b.frozen[k := specs]);
    ExitCodeMeaning(deps, b);
    ExitCodeMeaning(deps, b');
    MissingPasses(deps, b, k, specs);
  }

  /** An extra frozen entry for an undeclared requirement does not change whether the check passes. */
  lemma MissingPasses(deps: SpecMap, b: Baseline, k: string, specs: seq<string>)
    requires b.frozen != map[] && k !in deps
    ensures Passes(deps, b) <==> Passes(deps, b.(frozen := b.frozen[k := specs]))
  {
    var frozen' := b.frozen[k := specs];
    forall r, s ensures Unexcused(deps, b.overrides, b.frozen, r, s) <==> Unexcused(deps, b.overrides, frozen', r, s) {
      if r in deps {
        assert r != k;
      }
    }
    assert AllFrozen(deps, b.frozen) <==> AllFrozen(deps, frozen');
    assert AllExcused(deps, b.overrides, b.frozen) <==> AllExcused(deps, b.overrides, frozen');
  }

  lemma SortedSingleton(s: string)
    ensures Sorted({s}) == [s]
  {
    var r := Sorted({s});
    assert r[0] in {s};
  }

  /** The baseline a freeze writes holds, for each requirement, the one-element list `flat_deps` has. */
  lemma FrozenIsFlat(deps: SpecMap)
    requires Consistent(deps)
    ensures (map r | r in deps :: [TheSpec(deps[r])]) == FlatDeps(deps)
  {
    var frozen := map r | r in deps :: [TheSpec(deps[r])];
    var flat := FlatDeps(deps);
    forall r | r in frozen ensures frozen[r] == flat[r] {
      FlatSingleton(deps, r);
    }
    MapsEqual(frozen, flat);
  }

  lemma MapsEqual<K, V>(a: map<K, V>, b: map<K, V>)
    requires a.Keys == b.Keys && forall k :: k in a ==> a[k] == b[k]
    ensures a == b
  {
  }

  lemma FlatSingleton(deps: SpecMap, r: string)
    requires r in deps && |deps[r]| == 1
    ensures FlatDeps(deps)[r] == [TheSpec(deps[r])]
  {
    var s := TheSpec(deps[r]);
    SortedSingleton(s);
  }

  /** A baseline that freezes exactly `flat_deps` finds nothing to report. */
  lemma MatchingBaseline(deps: SpecMap, b: Baseline)
    requires Consistent(deps) && b.frozen == FlatDeps(deps)
    ensures var r := Judge(deps, b);
      && r.missingReqs == {} && r.newReqs == {} && r.changedReqs == map[]
      && r.violations == 0 && r.exitCode == 0
  {
    NoneInconsistent(deps);
    DictCompareSame(b.frozen);
    NoViolationsUnchanged(deps, b.overrides);
  }

  /** A map compared with itself has no difference. */
  lemma DictCompareSame<K(!new), V>(d: map<K, V>)
    ensures DictCompare(d, d) == Diff({}, {}, map[])
  {
  }

  lemma NoViolationsUnchanged(deps: SpecMap, overrides: SpecMap)
    ensures |Violations(deps, overrides, map[])| == 0
  {
  }

  /**
    Checking consistent dependencies against the baseline freeze mode wrote
    for them finds nothing missing, new or changed and exits with 0.
   */
  lemma FreezeThenCheck(deps: SpecMap)
    requires WellFormed(deps) && Consistent(deps)
    ensures var r := CheckOutcome(deps, Some(FreezeLines(deps)));
      && r.missingReqs == {} && r.newReqs == {} && r.changedReqs == map[]
      && r.violations == 0 && r.exitCode == 0
  {
    FreezeRoundTrip(deps);
    FrozenIsFlat(deps);
    MatchingBaseline(deps, ReadBaseline(Some(FreezeLines(deps))));
  }

  // ---------------------------------------------------------------------------
  // The order of the report.
  // ---------------------------------------------------------------------------

  /** `external`: the requirements that are not packages of the repository and are not skipped. */
  function External(deps: SpecMap, packages: set<string>): (ext: set<string>)
    ensures forall k :: k in ext <==> k in deps && k !in packages && !ShouldSkipLib(k)
  {
    set k | k in deps && k !in packages && !ShouldSkipLib(k)
  }

  /** The group letter of `display_order`. */
  function Group(inconsistent: seq<string>, external: set<string>, k: string): char
  {
    if k in inconsistent then (if k in external then 'a' else 'b')
    else (if k in external then 'c' else 'd')
  }

  /** `display_order(k)`: the group letter in front of the name. */
  function DisplayOrder(inconsistent: seq<string>, external: set<string>, k: string): string
  {
    [Group(inconsistent, external, k)] + k
  }

  function DisplayKey(inconsistent: seq<string>, external: set<string>): string -> string
  {
    k => DisplayOrder(inconsistent, external, k)
  }

  lemma DisplayKeyInjective(inconsistent: seq<string>, external: set<string>, s: set<string>)
    ensures InjectiveOn(s, DisplayKey(inconsistent, external))
  {
    var key := DisplayKey(inconsistent, external);
    forall a, b | a in s && b in s && key(a) == key(b) ensures a == b {
      assert key(a)[1..] == a && key(b)[1..] == b;
    }
  }

  /** `ordered_deps`: the requirement keys sorted by `display_order`. */
  function OrderedDeps(deps: SpecMap, packages: set<string>): seq<string>
  {
    var key := DisplayKey(Inconsistent(deps), External(deps, packages));
    DisplayKeyInjective(Inconsistent(deps), External(deps, packages), deps.Keys);
    SortBy(deps.Keys, key)
  }

  /** Ordering by a letter in front of the name orders by the letter, then by the name. */
  lemma TaggedLess(ga: char, a: string, gb: char, b: string)
    requires Less([ga] + a, [gb] + b)
    ensures ga < gb || (ga == gb && Less(a, b))
  {
    if ga == gb {
      PrefixKeepsOrder(ga, a, b);
    } else {
      assert ([ga] + a)[0] == ga && ([gb] + b)[0] == gb;
    }
  }

  /** The group letters spell out the report's grouping. */
  lemma GroupBefore(deps: SpecMap, packages: set<string>, inconsistent: seq<string>, external: set<string>, a: string, b: string)
    requires a in deps && b in deps
    requires (a in inconsistent <==> |deps[a]| != 1) && (b in inconsistent <==> |deps[b]| != 1)
    requires (a in external <==> a !in packages && !ShouldSkipLib(a)) && (b in external <==> b !in packages && !ShouldSkipLib(b))
    requires var ga, gb := Group(inconsistent, external, a), Group(inconsistent, external, b);
      ga < gb || (ga == gb && Less(a, b))
    ensures ReportedBefore(deps, packages, a, b)
  {
  }

  /**
    The report lists every requirement once: the inconsistent ones before the
    consistent ones, within each of those the external ones first, and
    alphabetically within each of the four groups.
   */
  lemma OrderedDepsGroups(deps: SpecMap, packages: set<string>)
    ensures var o := OrderedDeps(deps, packages);
      && (forall k :: k in o <==> k in deps)
      && forall i, j :: 0 <= i < j < |o| ==> ReportedBefore(deps, packages, o[i], o[j])
  {
    InconsistentMembers(deps);
    var inconsistent, external := Inconsistent(deps), External(deps, packages);
    DisplayKeyInjective(inconsistent, external, deps.Keys);
    GroupedSort(deps, packages, inconsistent, external, SortBy(deps.Keys, DisplayKey(inconsistent, external)));
  }

  /** A sequence sorted by `display_order` is in report order. */
  lemma GroupedSort(deps: SpecMap, packages: set<string>, inconsistent: seq<string>, external: set<string>, o: seq<string>)
    requires forall x :: x in inconsistent <==> x in deps && |deps[x]| != 1
    requires forall x :: x in external <==> x in deps && x !in packages && !ShouldSkipLib(x)
    requires SortedBy(o, DisplayKey(inconsistent, external)) && forall k :: k in o ==> k in deps
    ensures forall i, j :: 0 <= i < j < |o| ==> ReportedBefore(deps, packages, o[i], o[j])
  {
    var key := DisplayKey(inconsistent, external);
    forall i, j | 0 <= i < j < |o| ensures ReportedBefore(deps, packages, o[i], o[j]) {
      SortedAt(o, key, i, j);
      var a, b := o[i], o[j];
      TaggedLess(Group(inconsistent, external, a), a, Group(inconsistent, external, b), b);
      GroupBefore(deps, packages, inconsistent, external, a, b);
    }
  }

  /**
    `a` comes before `b` in the report: it is inconsistent and `b` is not; or
    both agree on that and `a` is external and `b` is not; or they agree on
    both and `a` sorts first.
   */
  ghost predicate ReportedBefore(deps: SpecMap, packages: set<string>, a: string, b: string)
    requires a in deps && b in deps
  {
    var incA, incB := |deps[a]| != 1, |deps[b]| != 1;
    var extA, extB := a !in packages && !ShouldSkipLib(a), b !in packages && !ShouldSkipLib(b);
    || (incA && !incB)
    || (incA == incB && extA && !extB)
    || (incA == incB && extA == extB && Less(a, b))
  }
}
