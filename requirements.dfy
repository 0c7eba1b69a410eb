/**
  Package-name filtering, requirement parsing and the clean-up of wheel
  `Requires-Dist` lines in the dependency checker (scripts/analyze_deps.py).
 */
module Requirements {
  import opened Wrappers
  import opened Text

  /** Libraries the scan never analyses: deprecated, top-level, tooling and legacy packages. */
  const SkippedLibraries: set<string> :=
    {"azure-mgmt-documentdb", "azure-sdk-for-python", "azure-sdk-tools", "azure-servicemanagement-legacy"}

  /** `should_skip_lib`: one of the listed names, or a namespace package. */
  function ShouldSkipLib(name: string): (r: bool)
    ensures r <==> name in SkippedLibraries || (|name| >= 6 && name[|name| - 6..] == "-nspkg")
  {
    name in SkippedLibraries || EndsWith(name, "-nspkg")
  }

  // ---------------------------------------------------------------------------
  // Requirement parsing.
  //
  // analyze_deps.py hands the string to pkg_resources' PEP 508 parser and keeps the
  // lower-cased project key and the remainder. This model uses a simplified
  // grammar: a requirement is a project name (ASCII letters, digits, '-', '_' and
  // '.', starting with a letter or digit) followed by everything else, the
  // specifier, taken verbatim. A string that does not start with a name is a
  // parse failure.
  // ---------------------------------------------------------------------------

  predicate IsAlphaNum(c: char)
  {
    ('a' <= c <= 'z') || ('A' <= c <= 'Z') || ('0' <= c <= '9')
  }

  predicate IsNameChar(c: char)
  {
    IsAlphaNum(c) || c == '-' || c == '_' || c == '.'
  }

  /** Length of the longest prefix of `s` made of name characters. */
  function NameLength(s: string): (n: nat)
    ensures n <= |s|
    ensures forall j :: 0 <= j < n ==> IsNameChar(s[j])
    ensures n < |s| ==> !IsNameChar(s[n])
  {
    if |s| == 0 || !IsNameChar(s[0]) then 0 else 1 + NameLength(s[1..])
  }

  /** A requirement key as `parse_req` produces it: a name without upper-case letters. */
  predicate IsKey(k: string)
  {
    && |k| > 0 && IsAlphaNum(k[0])
    && (forall j :: 0 <= j < |k| ==> IsNameChar(k[j]) && !('A' <= k[j] <= 'Z'))
  }

  /** A specifier as `parse_req` produces it: empty, or not continuing the name. */
  predicate IsSpec(s: string)
  {
    |s| == 0 || !IsNameChar(s[0])
  }

  /** `parse_req`: `Some((key, spec))`, or `None` where analyze_deps.py reports a failure and returns nothing. */
  function ParseReq(req: string): (r: Option<(string, string)>)
    ensures r.None? <==> |req| == 0 || !IsAlphaNum(req[0])
    ensures r.Some? ==> IsKey(r.value.0) && IsSpec(r.value.1)
  {
    var n := NameLength(req);
    if n == 0 || !IsAlphaNum(req[0]) then None
    else Some((Lower(req[..n]), req[n..]))
  }

  /**
    A requirement written as a project name in any case followed by a specifier
    that does not continue the name parses to the lower-cased name and exactly
    that specifier: the split is unique.
   */
  lemma ParseReqSplits(name: string, spec: string)
    requires |name| > 0 && IsAlphaNum(name[0]) && forall j :: 0 <= j < |name| ==> IsNameChar(name[j])
    requires IsSpec(spec)
    ensures ParseReq(name + spec) == Some((Lower(name), spec))
  {
    var s := name + spec;
    assert s[..|name|] == name && s[|name|..] == spec;
    assert forall j :: 0 <= j < |name| ==> IsNameChar(s[j]);
    assert |name| < |s| ==> s[|name|] == spec[0];
    assert NameLength(s) == |name|;
  }

  /** A frozen line `key + spec` parses back to exactly that key and that spec. */
  lemma ParseJoined(key: string, spec: string)
    requires IsKey(key) && IsSpec(spec)
    ensures ParseReq(key + spec) == Some((key, spec))
  {
    ParseReqSplits(key, spec);
    assert Lower(key) == key;
  }

  // ---------------------------------------------------------------------------
  // Wheel metadata clean-up (the two lines before `record_dep` in get_wheel_deps).
  // ---------------------------------------------------------------------------

  predicate IsStripped(c: char)
  {
    IsWhitespace(c) || c == '(' || c == ')'
  }

  /** `re.sub(r'[\s\(\)]', '', s)`. */
  function RemoveStripped(s: string): (r: string)
    ensures |r| <= |s|
    ensures forall c :: c in r <==> c in s && !IsStripped(c)
  {
    if |s| == 0 then ""
    else (if IsStripped(s[0]) then "" else [s[0]]) + RemoveStripped(s[1..])
  }

  /** `req.split(';')[0]` followed by the removal of whitespace and parentheses. */
  function CleanWheelRequirement(req: string): (r: string)
    ensures var before := req[..IndexOf(req, ';')];
      forall c :: c in r <==> c in before && !IsStripped(c)
    ensures ';' !in r
  {
    RemoveStripped(req[..IndexOf(req, ';')])
  }

  /** Characters that are kept survive in their original order. */
  lemma {:induction false} RemoveStrippedKeeps(s: string)
    requires forall c :: c in s ==> !IsStripped(c)
    ensures RemoveStripped(s) == s
  {
    if |s| > 0 {
      assert s[0] in s;
      assert forall c :: c in s[1..] ==> c in s;
      RemoveStrippedKeeps(s[1..]);
      assert s == [s[0]] + s[1..];
    }
  }

  lemma {:induction false} RemoveStrippedConcat(a: string, b: string)
    ensures RemoveStripped(a + b) == RemoveStripped(a) + RemoveStripped(b)
    decreases |a|
  {
    if |a| > 0 {
      assert (a + b)[1..] == a[1..] + b;
      RemoveStrippedConcat(a[1..], b);
    } else {
      assert a + b == b;
    }
  }

  /** A requirement that is already clean passes unchanged; so cleaning twice is cleaning once. */
  lemma CleanIdempotent(req: string)
    ensures CleanWheelRequirement(CleanWheelRequirement(req)) == CleanWheelRequirement(req)
  {
    var r := CleanWheelRequirement(req);
    assert IndexOf(r, ';') == |r|;
    assert r[..|r|] == r;
    RemoveStrippedKeeps(r);
  }
}
