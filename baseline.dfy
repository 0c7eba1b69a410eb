/**
  The frozen baseline file (shared_requirements.txt) of scripts/analyze_deps.py:
  writing it in freeze mode and reading it back, with its `#override` lines.
 */
module Baseline {
  import opened Wrappers
  import opened Text
  import opened Ordering
  import opened Requirements
  import opened Dependencies
  import opened Folds

  /** What reading the baseline produces: `frozen`, `overrides` and `override_count`. */
  datatype Baseline = Baseline(frozen: map<string, seq<string>>, overrides: SpecMap, overrideCount: nat)

  const Empty := Baseline(map[], map[], 0)

  /**
    `_, lib_name, req_override = line.split(' ', 2)`: the text between the first
    and the second space, and everything after the second space. With fewer than
    two spaces the unpacking raises.
   */
  function SplitOverride(line: string): Option<(string, string)>
  {
    match SplitAtSpace(line)
    case None => None
    case Some((_, rest)) => SplitAtSpace(rest)
  }

  /**
    One line of the baseline, or `None` where analyze_deps.py raises and the rest of
    the file is abandoned.
   */
  function Step(b: Baseline, line: string): Option<Baseline>
  {
    if StartsWith(line, "#override") then OverrideStep(b, line)
    else if StartsWith(line, "#") then Some(b)
    else FreezeStep(b, line)
  }

  /** `record_dep(overrides, req_override, lib_name)` and `override_count += 1`. */
  function OverrideStep(b: Baseline, line: string): Option<Baseline>
  {
    match SplitOverride(line)
    case None => None
    case Some((lib, req)) =>
      match RecordDep(b.overrides, req, lib)
      case None => None
      case Some(overrides) => Some(b.(overrides := overrides, overrideCount := b.overrideCount + 1))
  }

  /** `frozen[req_name] = [spec]`. */
  function FreezeStep(b: Baseline, line: string): Option<Baseline>
  {
    match ParseReq(line)
    case None => None
    case Some((name, spec)) => Some(b.(frozen := b.frozen[name := [spec]]))
  }

  /** The loop over the file's lines, stopping at the first line that raises. */
  function Read(b: Baseline, lines: seq<string>): Baseline
  {
    FoldUntilFailure(Step, b, lines)
  }

  /** The whole `try` block: a file that cannot be opened leaves everything empty. */
  function ReadBaseline(file: Option<seq<string>>): Baseline
  {
    if file.None? then Empty else Read(Empty, file.value)
  }

  /**
    The body of the baseline-reading loop for one line, recording overrides into
    `recorded`; `ok` is false where analyze_deps.py raises.
   */
  method ReadLine(recorded: DependencyMap, frozen: map<string, seq<string>>, overrideCount: nat, line: string)
    returns (ok: bool, frozen': map<string, seq<string>>, overrideCount': nat)
    modifies recorded
    ensures var before := Baseline(frozen, old(recorded.entries), overrideCount);
      && (ok <==> Step(before, line).Some?)
      && Baseline(frozen', recorded.entries, overrideCount') == if ok then Step(before, line).value else before
  {
    frozen', overrideCount' := frozen, overrideCount;
    ghost var before := Baseline(frozen, recorded.entries, overrideCount);
    if StartsWith(line, "#override") {
      assert Step(before, line) == OverrideStep(before, line);
      var parts := SplitOverride(line);
      if parts.None? {
        return false, frozen', overrideCount';
      }
      var (lib, req) := parts.value;
      ok := recorded.Record(req, lib);
      if ok {
        overrideCount' := overrideCount + 1;
        OverrideLine(before, line, lib, req);
      }
    } else if !StartsWith(line, "#") {
      assert Step(before, line) == FreezeStep(before, line);
      var parsed := ParseReq(line);
      if parsed.None? {
        return false, frozen', overrideCount';
      }
      frozen' := frozen[parsed.value.0 := [parsed.value.1]];
      ok := true;
    } else {
      ok := true;
    }
  }

  /** The baseline-reading loop, with `record_dep` on a DependencyMap for the overrides. */
  method ParseBaseline(file: Option<seq<string>>) returns (frozen: map<string, seq<string>>, overrides: SpecMap, overrideCount: nat)
    ensures Baseline(frozen, overrides, overrideCount) == ReadBaseline(file)
  {
    frozen, overrideCount := map[], 0;
    var recorded := new DependencyMap();
    if file.Some? {
      var lines := file.value;
      var i := 0;
      while i < |lines|
        invariant 0 <= i <= |lines|
        invariant Read(Baseline(frozen, recorded.entries, overrideCount), lines[i..]) == ReadBaseline(file)
      {
        ghost var before := Baseline(frozen, recorded.entries, overrideCount);
        FoldStep(Step, before, lines[i..]);
        assert lines[i..][0] == lines[i] && lines[i..][1..] == lines[i + 1..];
        var ok;
        ok, frozen, overrideCount := ReadLine(recorded, frozen, overrideCount, lines[i]);
        if !ok {
          break;
        }
        i := i + 1;
      }
    }
    overrides := recorded.entries;
  }

  // ---------------------------------------------------------------------------
  // Properties of one line.
  // ---------------------------------------------------------------------------

  /** The text after `#override ` splits into the library and the requirement. */
  lemma OverrideSplits(lib: string, req: string)
    requires ' ' !in lib
    ensures SplitOverride("#override " + lib + " " + req) == Some((lib, req))
  {
    var line := "#override " + lib + " " + req;
    assert line == "#override" + " " + (lib + " " + req);
    SplitAtSpaceJoined("#override", lib + " " + req);
    SplitAtSpaceJoined(lib, req);
  }

  /** An `#override` line records its library under the parsed requirement and counts one override. */
  lemma OverrideLine(b: Baseline, line: string, lib: string, req: string)
    requires StartsWith(line, "#override") && SplitOverride(line) == Some((lib, req)) && ParseReq(req).Some?
    ensures var (name, spec) := ParseReq(req).value;
      Step(b, line) == Some(Baseline(b.frozen, Recorded(b.overrides, name, spec, lib), b.overrideCount + 1))
  {
    assert Step(b, line) == OverrideStep(b, line);
    var (name, spec) := ParseReq(req).value;
    assert RecordDep(b.overrides, req, lib) == Some(Recorded(b.overrides, name, spec, lib));
  }

  /** Reading the line `#override lib req` records `lib` under `req` and counts one override. */
  lemma OverrideText(b: Baseline, lib: string, req: string)
    requires ' ' !in lib && ParseReq(req).Some?
    ensures var (name, spec) := ParseReq(req).value;
      Step(b, "#override " + lib + " " + req) == Some(Baseline(b.frozen, Recorded(b.overrides, name, spec, lib), b.overrideCount + 1))
  {
    var line := "#override " + lib + " " + req;
    assert line == "#override" + (" " + lib + " " + req);
    PrefixStarts("#override", " " + lib + " " + req);
    OverrideSplits(lib, req);
    OverrideLine(b, line, lib, req);
  }

  /** Any other line starting with `#` is a comment. */
  lemma CommentLine(b: Baseline, line: string)
    requires StartsWith(line, "#") && !StartsWith(line, "#override")
    ensures Step(b, line) == Some(b)
  {
  }

  /** A requirement line freezes its single specifier, replacing whatever an earlier line froze. */
  lemma RequirementLine(b: Baseline, line: string)
    requires !StartsWith(line, "#") && ParseReq(line).Some?
    ensures var (name, spec) := ParseReq(line).value;
      Step(b, line) == Some(b.(frozen := b.frozen[name := [spec]]))
  {
  }

  /** Of two lines for the same requirement, the later one wins. */
  lemma LaterLineWins(b: Baseline, first: string, second: string)
    requires !StartsWith(first, "#") && !StartsWith(second, "#")
    requires ParseReq(first).Some? && ParseReq(second).Some?
    requires ParseReq(first).value.0 == ParseReq(second).value.0
    ensures ParseReq(first).value.0 in Read(b, [first, second]).frozen
    ensures Read(b, [first, second]).frozen[ParseReq(first).value.0] == [ParseReq(second).value.1]
  {
    RequirementLine(b, first);
    var b1 := Step(b, first).value;
    RequirementLine(b1, second);
    var b2 := Step(b1, second).value;
    FoldAlong(Step, [first, second], (i: nat) requires i <= 2 => [b, b1, b2][i]);
  }

  /** A line that raises abandons the rest of the file: what follows has no effect. */
  lemma FailureAbandonsRest(b: Baseline, lines: seq<string>, k: nat)
    requires k < |lines| && Step(Read(b, lines[..k]), lines[k]).None?
    ensures Read(b, lines) == Read(b, lines[..k])
  {
    FailureStops(Step, b, lines, k);
  }

  // ---------------------------------------------------------------------------
  // Freezing.
  // ---------------------------------------------------------------------------

  /** Every requirement has exactly one specifier: nothing is inconsistent. */
  ghost predicate Consistent(deps: SpecMap)
  {
    forall r :: r in deps ==> |deps[r]| == 1
  }

  lemma SingletonMember<T>(s: set<T>, a: T, b: T)
    requires |s| == 1 && a in s && b in s
    ensures a == b
  {
    var t := s - {a};
    assert s == t + {a};
    assert |t| == 0;
    assert b !in t;
  }

  /** The one specifier of a consistent requirement (`list(specs.keys())[0]`). */
  function TheSpec(specs: map<string, seq<string>>): (s: string)
    requires |specs| == 1
    ensures specs.Keys == {s}
  {
    assert forall a, b :: a in specs && b in specs ==> a == b by {
      forall a, b | a in specs && b in specs ensures a == b { SingletonMember(specs.Keys, a, b); }
    }
    var s :| s in specs; s
  }

  /** The lines freeze mode writes: `name + spec` for every requirement, in sorted name order. */
  function FreezeLines(deps: SpecMap): (lines: seq<string>)
    requires Consistent(deps)
    ensures |lines| == |deps|
  {
    FrozenLines(deps, Sorted(deps.Keys))
  }

  /** One line `name + spec` for each of `names`, in that order. */
  function FrozenLines(deps: SpecMap, names: seq<string>): (lines: seq<string>)
    requires forall x :: x in names ==> x in deps && |deps[x]| == 1
    ensures |lines| == |names|
  {
    seq(|names|, i requires 0 <= i < |names| => names[i] + TheSpec(deps[names[i]]))
  }

  /** The frozen map that reading back the first `k` lines of a freeze builds. */
  ghost function FrozenPrefix(deps: SpecMap, names: seq<string>, k: nat): map<string, seq<string>>
    requires Consistent(deps) && k <= |names|
  {
    map r | r in names[..k] && r in deps :: [TheSpec(deps[r])]
  }

  lemma FrozenPrefixNext(deps: SpecMap, names: seq<string>, k: nat)
    requires Consistent(deps) && k < |names| && names[k] in deps
    ensures FrozenPrefix(deps, names, k + 1) == FrozenPrefix(deps, names, k)[names[k] := [TheSpec(deps[names[k]])]]
  {
    assert names[..k + 1] == names[..k] + [names[k]];
  }

  /** The `k`-th frozen line parses back to its requirement and its one specifier. */
  lemma FrozenLine(deps: SpecMap, k: nat)
    requires WellFormed(deps) && Consistent(deps) && k < |deps|
    ensures var name := Sorted(deps.Keys)[k];
      && name in deps
      && !StartsWith(FreezeLines(deps)[k], "#")
      && ParseReq(FreezeLines(deps)[k]) == Some((name, TheSpec(deps[name])))
  {
    var name := Sorted(deps.Keys)[k];
    assert name in deps;
    var spec := TheSpec(deps[name]);
    var line := FreezeLines(deps)[k];
    assert line == name + spec;
    assert IsKey(name) && IsSpec(spec);
    ParseJoined(name, spec);
    assert line[0] == name[0];
    FirstCharDiffers(line, "#");
  }

  /** Reading the `k`-th frozen line adds exactly that requirement to what was read before it. */
  lemma FrozenLineStep(deps: SpecMap, k: nat)
    requires WellFormed(deps) && Consistent(deps) && k < |deps|
    ensures var names := Sorted(deps.Keys);
      Step(Baseline(FrozenPrefix(deps, names, k), map[], 0), FreezeLines(deps)[k])
        == Some(Baseline(FrozenPrefix(deps, names, k + 1), map[], 0))
  {
    var names := Sorted(deps.Keys);
    FrozenLine(deps, k);
    RequirementLine(Baseline(FrozenPrefix(deps, names, k), map[], 0), FreezeLines(deps)[k]);
    FrozenPrefixNext(deps, names, k);
  }

  /** After the last line every requirement has been read. */
  lemma FrozenPrefixAll(deps: SpecMap)
    requires Consistent(deps)
    ensures FrozenPrefix(deps, Sorted(deps.Keys), |deps|) == map r | r in deps :: [TheSpec(deps[r])]
  {
    var names := Sorted(deps.Keys);
    assert names[..|names|] == names;
  }

  /** The state after reading the first `k` frozen lines. */
  ghost function FrozenState(deps: SpecMap, k: nat): Baseline
    requires Consistent(deps) && k <= |deps|
  {
    Baseline(FrozenPrefix(deps, Sorted(deps.Keys), k), map[], 0)
  }

  /** Each frozen line takes the reader from one prefix state to the next. */
  lemma FrozenSteps(deps: SpecMap)
    requires WellFormed(deps) && Consistent(deps)
    ensures forall k :: 0 <= k < |deps| ==> Step(FrozenState(deps, k), FreezeLines(deps)[k]) == Some(FrozenState(deps, k + 1))
  {
    forall k | 0 <= k < |deps| ensures Step(FrozenState(deps, k), FreezeLines(deps)[k]) == Some(FrozenState(deps, k + 1)) {
      FrozenLineStep(deps, k);
    }
  }

  /** Reading the frozen lines from the empty state ends with every requirement read. */
  lemma ReadFrozen(deps: SpecMap)
    requires WellFormed(deps) && Consistent(deps)
    ensures Read(FrozenState(deps, 0), FreezeLines(deps)) == FrozenState(deps, |deps|)
  {
    var lines := FreezeLines(deps);
    FrozenSteps(deps);
    FoldAlong(Step, lines, (k: nat) requires k <= |deps| && Consistent(deps) => FrozenState(deps, k));
  }

  /** Reading back a freeze reproduces every requirement's specifier exactly, and no override. */
  lemma FreezeRoundTrip(deps: SpecMap)
    requires WellFormed(deps) && Consistent(deps)
    ensures ReadBaseline(Some(FreezeLines(deps))) == Baseline(map r | r in deps :: [TheSpec(deps[r])], map[], 0)
  {
    ReadFrozen(deps);
    assert Sorted(deps.Keys)[..0] == [];
    assert FrozenState(deps, 0) == Empty;
    FrozenPrefixAll(deps);
  }
}
