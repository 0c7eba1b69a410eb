# Dependency checking, App Configuration requests and prioritized settings

This project models three sequential parts of the Azure SDK for Python and
proves properties of each model in Dafny.

- **The dependency-consistency checker** (`scripts/analyze_deps.py`).
  - It scans the libraries of the repository and records every requirement
    they declare into a nested map: requirement key → specifier → declaring
    libraries.
  - It reports the requirements declared with more than one specifier.
  - It either freezes the map into `shared_requirements.txt` or checks the map
    against that baseline. The check honours `#override lib req` lines.
  - It counts the violations that no override excuses and computes the exit
    code.
  - It orders the HTML report by `display_order`.

  Modules:
  - `Requirements`: `should_skip_lib`, `parse_req` and the wheel requirement
    clean-up.
  - `Dependencies`: `record_dep` and the scan.
  - `Baseline`: reading and writing the baseline.
  - `Analysis`: the `__main__` logic.
  - `Ordering`: Python's string order and `sorted`.
  - `Folds`: a loop that stops at the first failure.
  - `Text`: the `str` methods and the `\s` class the code relies on.
- **App Configuration request preparation** (`azure_appconfiguration_client.py`,
  module `AppConfiguration`).
  - Escaping of key and label filters.
  - Entity-tag quoting.
  - The If-Match and If-None-Match headers of add, update, set and delete.
    These are sections 3.1 and 3.2 of RFC 7232; tag quoting follows section
    2.3.
  - The "None means unchanged" merge of `update_configuration_setting`.
- **Prioritized settings** (`azure/core/settings.py`, module `CoreSettings`).
  - `convert_bool` and `convert_logging`.
  - `PrioritizedSetting`, whose call resolves a value by fixed precedence:
    immediate value, user value, environment variable, system hook, default.
  - `set_value` and `unset_value`.
  - The `defaults`, `current` and `config` snapshots of `Settings`.

Code that updates state in place is modelled as classes with methods, and each
method is proved against a specification function:
- `record_dep` is a method on `DependencyMap`;
- `CaseInsensitiveDict` key assignment is a method on `HeaderDict`;
- the setting merge is a method on `ConfigurationSetting`;
- `set_value` and `unset_value` are methods on `PrioritizedSetting`.

The loops of `__main__` are methods with loop invariants, each tied to a
function:
- finding the inconsistent requirements;
- writing the freeze lines;
- reading the baseline;
- counting the violations.

Inputs from the outside world become parameters:
- the located packages and what their manifests yielded, as a sequence of
  `Manifest` values;
- the baseline file, as its lines or `None` when it cannot be opened;
- `os.environ`, as a map;
- the system hook's result;
- the setting fetched by `get_configuration_setting`.

Three behaviours of the checker follow from how its exceptions and counters
are placed:
- A requirement that `parse_req` cannot parse makes it print a message and
  return `None` (`scripts/analyze_deps.py:37-38`). `record_dep` then raises
  when it unpacks that value (line 41). The `except` around the whole package
  (lines 67-68) therefore drops that requirement and every later one of the
  same package. The package stays in `packages`, which was assigned at lines
  60-63, and its earlier requirements stay recorded.
- One bad baseline line abandons the rest of the file, and whatever was read
  before it is kept. A bad line is an `#override` line with fewer than two
  spaces (line 252), an `#override` line whose requirement does not parse
  (`record_dep` at line 253 fails at line 41), or a requirement line that does
  not parse (line 256). The single
  `try` around the reading loop (lines 248-259) is what ends the file.
- The violation counter rises once per unexcused (requirement, specifier)
  pair, because the `+= 1` of line 300 sits inside the loop over unmatched
  specifiers (lines 292-300).

## Model

| member | source | states |
|---|---|---|
| Text.StartsWith | scripts/analyze_deps.py:251 | definition of `s.startswith(prefix)`: the prefix is no longer than `s` and agrees with it character by character |
| Text.EndsWith | scripts/analyze_deps.py:21 | `s.endswith(suffix)` holds exactly when the suffix is no longer than `s` and equals its last characters |
| Text.Lower | scripts/analyze_deps.py:33-36 | `str.lower` on ASCII letters: the same length, each character case-mapped in place |
| Text.Upper | sdk/core/azure-core/azure/core/settings.py:121 | `str.upper` on ASCII letters: the same length, each character case-mapped in place |
| Text.IsWhitespace | scripts/analyze_deps.py:93 | definition of the characters `\s` matches in a `str` pattern, those for which `str.isspace()` holds |
| Text.IndexOf | scripts/analyze_deps.py:252 | the position of the first occurrence of the character, or the length when it does not occur: no earlier position holds it |
| Text.SplitAtSpace | scripts/analyze_deps.py:252 | `s.split(' ', 1)` unpacked into two parts: `None` exactly when `s` has no space, otherwise a space-free head, a space and the tail that rebuild `s` |
| Ordering.Less | scripts/analyze_deps.py:203 | definition of Python's `<` on `str`: lexicographic order by code point, a proper prefix coming first |
| Requirements.ShouldSkipLib | scripts/analyze_deps.py:14-21 | true exactly when the name is one of the four listed libraries or ends with `-nspkg` |
| Requirements.ParseReq | scripts/analyze_deps.py:31-38 | fails exactly when the string does not start with a letter or digit; otherwise yields a lower-case key and a specifier that does not continue the name |
| Requirements.ParseReqSplits | scripts/analyze_deps.py:33-36 | a project name in any case followed by a specifier that does not continue the name parses to the lower-cased name and exactly that specifier, so the split is unique |
| Requirements.ParseJoined | scripts/analyze_deps.py:33-36 | `key + spec` parses back to exactly `(key, spec)`, which is what makes a frozen line readable |
| Requirements.RemoveStripped | scripts/analyze_deps.py:93 | a character occurs in the result exactly when it occurs in the input and is neither whitespace nor a parenthesis, and the result is no longer than the input |
| Requirements.CleanWheelRequirement | scripts/analyze_deps.py:92-93 | a character occurs in the result exactly when it occurs before the first `;` and is neither whitespace nor a parenthesis; the result contains no `;` |
| Requirements.RemoveStrippedKeeps | scripts/analyze_deps.py:93 | text without whitespace or parentheses passes through unchanged, in order |
| Requirements.RemoveStrippedConcat | scripts/analyze_deps.py:93 | removing characters from a concatenation is concatenating the removals |
| Requirements.CleanIdempotent | scripts/analyze_deps.py:92-93 | cleaning a cleaned requirement changes nothing |
| Dependencies.Recorded | scripts/analyze_deps.py:40-46 | the library is appended to the end of `dependencies[name][spec]` and any missing level is created; every other entry and list is unchanged |
| Dependencies.Lookup | scripts/analyze_deps.py:294-296 | definition of `dependencies[req][spec]`, the empty list where either level is missing |
| Dependencies.RecordDep | scripts/analyze_deps.py:40-46 | definition of `record_dep` as a value: `None` where `parse_req` fails and the unpacking raises, otherwise `Recorded` of the parsed key and specifier |
| Dependencies.RecordedWellFormed | scripts/analyze_deps.py:40-46 | recording a parsed requirement keeps every key a requirement key and every level non-empty |
| Dependencies.DependencyMap.Record | scripts/analyze_deps.py:40-46 | the in-place update succeeds exactly when the requirement parses; it then leaves the map that `Recorded` describes, and otherwise leaves the map unchanged |
| Dependencies.RecordRequirements | scripts/analyze_deps.py:65-66 | the loop over one package's requirements leaves the map that recording them in order gives, up to the first one that does not parse |
| Dependencies.Prepared | scripts/analyze_deps.py:92-93 | definition: a wheel requirement is cleaned before it is recorded; a source requirement is recorded as it is |
| Dependencies.RecordStep | scripts/analyze_deps.py:91-94 | definition of one iteration of the requirement loop: prepare the string, then `record_dep` |
| Dependencies.RecordAll | scripts/analyze_deps.py:65-66 | definition of the requirement loop of one package, stopping at the first requirement that raises |
| Dependencies.ScanOne | scripts/analyze_deps.py:53-68 | definition of one iteration of the scan: a skipped or unreadable package changes nothing, otherwise the package is recorded and then its requirements |
| Dependencies.ScanFrom | scripts/analyze_deps.py:52-69 | definition of the scan loop from a given state over the remaining packages |
| Dependencies.ScanAll | scripts/analyze_deps.py:49-97 | definition of `get_lib_deps` and `get_wheel_deps` on the located packages, starting from empty maps |
| Dependencies.GetDeps | scripts/analyze_deps.py:49-69 | the scan loop yields the packages and the dependency map of the scan specification, including the wheel variant of lines 77-97 |
| Dependencies.FailureDropsRest | scripts/analyze_deps.py:53-68 | a requirement that does not parse drops itself and every later requirement of that package |
| Dependencies.ReadPackageRecorded | scripts/analyze_deps.py:55-63 | a package that is not skipped and whose manifest was read is recorded with its version and source, whatever its requirements |
| Dependencies.RecordAllGrows | scripts/analyze_deps.py:40-46 | recording more requirements never removes a specifier already present |
| Dependencies.RecordAllWellFormed | scripts/analyze_deps.py:65-66 | recording a package's requirements keeps the map well-formed |
| Dependencies.ScanWellFormed | scripts/analyze_deps.py:49-97 | every scan yields a map whose keys are requirement keys and whose specifier maps and library lists are non-empty |
| Folds.FailureStops | scripts/analyze_deps.py:53-68 | a loop stopped by a failure at position k ends where the first k steps ended |
| Folds.FoldAlong | scripts/analyze_deps.py:250-257 | a loop that takes each state to the next ends in the last state |
| Ordering.LessTransitive | scripts/analyze_deps.py:203 | Python's string order is transitive |
| Ordering.LessTotal | scripts/analyze_deps.py:203 | any two distinct strings are ordered one way or the other |
| Ordering.SortBy | scripts/analyze_deps.py:325 | `sorted(s, key=key)` with distinct keys has the members of `s`, once each, in increasing key order |
| Ordering.Sorted | scripts/analyze_deps.py:203 | `sorted(s)` has the members of `s` in increasing order |
| Ordering.SortedUnique | scripts/analyze_deps.py:203 | two sequences sorted by the same key with the same members are equal |
| Baseline.ReadLine | scripts/analyze_deps.py:250-257 | one line of the baseline: fails exactly where analyze_deps.py raises, and otherwise leaves the state the line specification gives |
| Baseline.SplitOverride | scripts/analyze_deps.py:252 | definition of `line.split(' ', 2)` unpacked into three parts: the text between the first two spaces and everything after the second, or `None` when there are fewer than two spaces |
| Baseline.Step | scripts/analyze_deps.py:250-257 | definition of one iteration of the reading loop: override lines, then other comments, then requirement lines, with `None` where analyze_deps.py raises |
| Baseline.OverrideStep | scripts/analyze_deps.py:251-254 | definition of the `#override` branch: split the line, `record_dep` into the overrides and count one override |
| Baseline.FreezeStep | scripts/analyze_deps.py:255-257 | definition of the requirement branch: `frozen[name] = [spec]` |
| Baseline.Read | scripts/analyze_deps.py:250-257 | definition of the reading loop, which stops at the first line that raises |
| Baseline.ReadBaseline | scripts/analyze_deps.py:245-259 | definition of the whole baseline read: empty maps and count when the file cannot be opened, otherwise `Read` from empty maps |
| Baseline.ParseBaseline | scripts/analyze_deps.py:245-259 | the reading loop yields the frozen map, the overrides and the override count of the baseline specification |
| Baseline.OverrideLine | scripts/analyze_deps.py:251-254 | an `#override lib req` line records `lib` under the parsed requirement and specifier and adds one to the override count; frozen entries are untouched |
| Baseline.OverrideText | scripts/analyze_deps.py:251-254 | reading a line `#override lib req`, with no space in `lib` and a parseable `req`, records `lib` under the key and specifier of `req` and counts one override |
| Baseline.OverrideSplits | scripts/analyze_deps.py:252 | a line `#override lib req` with no space in `lib` splits into `lib` and `req`, where `req` may itself contain spaces |
| Baseline.CommentLine | scripts/analyze_deps.py:255 | any other line starting with `#` changes nothing |
| Baseline.RequirementLine | scripts/analyze_deps.py:255-257 | a requirement line sets `frozen[name] = [spec]` and changes nothing else |
| Baseline.LaterLineWins | scripts/analyze_deps.py:255-257 | of two requirement lines for the same name, the later one's specifier is the frozen one |
| Baseline.FailureAbandonsRest | scripts/analyze_deps.py:248-259 | a line that raises abandons itself and every later line; what was read before it is kept |
| Baseline.TheSpec | scripts/analyze_deps.py:238 | the one specifier of a consistent requirement is the only key of its specifier map |
| Baseline.FreezeLines | scripts/analyze_deps.py:237-241 | freeze mode writes one line per requirement |
| Baseline.FrozenLines | scripts/analyze_deps.py:237-241 | one line `name + spec` per given name, in the order given |
| Baseline.FrozenLine | scripts/analyze_deps.py:237-241 | the k-th written line is not a comment and parses back to the k-th sorted requirement and its specifier |
| Baseline.ReadFrozen | scripts/analyze_deps.py:237-257 | reading the freeze lines from an empty baseline ends in the state where every requirement is frozen to its one specifier |
| Baseline.FreezeRoundTrip | scripts/analyze_deps.py:236-257 | reading back a freeze gives, for every requirement, the one-element list of its specifier, and no override |
| Analysis.InconsistentAmongSorted | scripts/analyze_deps.py:203-209 | the loop over sorted names keeps exactly those without a single specifier, still sorted |
| Analysis.InconsistentAmong | scripts/analyze_deps.py:203-209 | definition of the loop body over a list of names: those with other than one specifier, in list order |
| Analysis.Inconsistent | scripts/analyze_deps.py:202-209 | definition of `inconsistent`: the loop over `sorted(dependencies.keys())` |
| Analysis.InconsistentExactly | scripts/analyze_deps.py:202-209 | `inconsistent` is exactly `sorted` of the set of requirements whose specifier map does not have exactly one key |
| Analysis.InconsistentMembers | scripts/analyze_deps.py:202-209 | a name is in `inconsistent` exactly when it is a requirement that does not have exactly one specifier |
| Analysis.CollectInconsistent | scripts/analyze_deps.py:203-209 | the loop over the given requirement names appends exactly those without a single specifier, in the order given |
| Analysis.NoneInconsistent | scripts/analyze_deps.py:220-228 | `inconsistent` is empty exactly when every requirement has a single specifier |
| Analysis.FindInconsistent | scripts/analyze_deps.py:202-209 | the loop builds the `inconsistent` list |
| Analysis.FreezeMode | scripts/analyze_deps.py:230-243 | with an inconsistent requirement nothing is written and the exit code is 1; otherwise the freeze lines in sorted order are written and the exit code is 0 |
| Analysis.WriteFrozen | scripts/analyze_deps.py:236-241 | the freeze loop writes exactly the freeze lines of the dependency map |
| Analysis.WriteLines | scripts/analyze_deps.py:237-241 | for each name in order, the loop writes the name followed by its one specifier |
| Analysis.DictCompare | scripts/analyze_deps.py:138-145 | `added` is exactly the keys only in d1, `removed` exactly those only in d2, and `modified` exactly the shared keys whose values differ, mapped to (d1 value, d2 value) |
| Analysis.DictComparePartition | scripts/analyze_deps.py:138-145 | the three parts are pairwise disjoint and, with the unchanged shared keys, cover both maps |
| Analysis.FlatDeps | scripts/analyze_deps.py:264 | definition of `flat_deps`: every requirement with its sorted specifiers; its ensures only restates the comprehension, and what it promises is proved by `FreezeThenCheck` and `ViolationsUnexcused` |
| Analysis.Elems | scripts/analyze_deps.py:289 | definition of Python's `set(xs)` |
| Analysis.Unmatched | scripts/analyze_deps.py:288-289 | definition of `unmatched_specs`: the current specifiers that are not frozen |
| Analysis.Offending | scripts/analyze_deps.py:290-296 | definition of `non_overridden_libs`: the declaring libraries, less those an override names for that exact specifier |
| Analysis.IsViolation | scripts/analyze_deps.py:298 | definition of the counting test `len(non_overridden_libs) > 0` |
| Analysis.ViolationsAmong | scripts/analyze_deps.py:287-300 | definition of the counted (requirement, specifier) pairs among some changed requirements |
| Analysis.Violations | scripts/analyze_deps.py:286-300 | definition of all counted pairs; `non_overridden_reqs_count` is its size |
| Analysis.OffendingIsDifference | scripts/analyze_deps.py:290-296 | the offending libraries are the declaring ones without an override for that exact requirement and specifier |
| Analysis.ViolationExactly | scripts/analyze_deps.py:286-300 | a (requirement, specifier) pair is a violation exactly when the requirement changed, the specifier is current but not frozen, and some declaring library has no override for it |
| Analysis.CountViolations | scripts/analyze_deps.py:286-300 | the loops count exactly the violations, one per pair |
| Analysis.CountChanged | scripts/analyze_deps.py:286-300 | the outer loop adds up the counts of each changed requirement |
| Analysis.CountUnmatched | scripts/analyze_deps.py:291-300 | the inner loop counts the unmatched specifiers of one requirement that have an offending library |
| Analysis.CountSpecs | scripts/analyze_deps.py:292-300 | the loop over the unmatched specifiers, taken in order, counts exactly those for which `IsViolation` holds |
| Analysis.TotalForPairs | scripts/analyze_deps.py:286-300 | counting requirement by requirement counts every violation once |
| Analysis.CountForPairs | scripts/analyze_deps.py:291-300 | counting specifier by specifier counts each violating specifier once |
| Analysis.Judge | scripts/analyze_deps.py:220-300 | the exit code is 0 or 1 |
| Analysis.CheckOutcome | scripts/analyze_deps.py:245-300 | definition of the check half: read the baseline file, then `Judge` |
| Analysis.CheckMode | scripts/analyze_deps.py:202-300 | the check half of `__main__` computes the report and exit code of the check specification |
| Analysis.ViolationsUnexcused | scripts/analyze_deps.py:262-300 | the violations of the comparison with the baseline are exactly the frozen requirements' unfrozen, declared and not fully overridden specifiers |
| Analysis.ExitCodeMeaning | scripts/analyze_deps.py:220-300 | the exit code is 0 exactly when every requirement is consistent and, when the baseline freezes anything, every requirement is frozen and every specifier is excused |
| Analysis.NoneNew | scripts/analyze_deps.py:265-278 | `new_reqs` is empty exactly when every declared requirement is frozen |
| Analysis.NoneViolated | scripts/analyze_deps.py:286-300 | the violation count is zero exactly when every unfrozen specifier of a frozen requirement is overridden for all its declaring libraries |
| Analysis.MissingPasses | scripts/analyze_deps.py:263-276 | when the baseline already freezes something, freezing an extra requirement that nothing declares does not change whether the check passes; with an empty baseline the `if frozen:` of line 263 skips the comparison altogether |
| Analysis.MatchingBaseline | scripts/analyze_deps.py:263-300 | a baseline that equals `flat_deps` of consistent dependencies gives nothing missing, new or changed, no violation and exit code 0 |
| Analysis.FrozenIsFlat | scripts/analyze_deps.py:236-264 | for consistent dependencies, what the freeze records is exactly `flat_deps` |
| Analysis.NewRequirementFails | scripts/analyze_deps.py:263-278 | when the baseline already freezes something, a declared requirement that is not frozen forces exit code 1 |
| Analysis.MissingIgnored | scripts/analyze_deps.py:263-278 | when the baseline already freezes something, freezing an extra requirement that nothing declares does not change the exit code |
| Analysis.FreezeThenCheck | scripts/analyze_deps.py:230-300 | checking consistent dependencies against their own freeze finds nothing missing, new or changed, no violation, and exits with 0 |
| Analysis.External | scripts/analyze_deps.py:307 | definition of `external`: the requirements that are not packages of the repository and are not skipped; its ensures only restates the comprehension, and what it promises is proved by `OrderedDepsGroups` |
| Analysis.Group | scripts/analyze_deps.py:308-312 | definition of the group letter in `display_order`: a, b, c or d by inconsistency and externality |
| Analysis.DisplayOrder | scripts/analyze_deps.py:308-312 | definition of `display_order(k)`: the group letter followed by the name |
| Analysis.OrderedDeps | scripts/analyze_deps.py:325 | definition of `ordered_deps`: the requirement keys sorted by `display_order` |
| Analysis.DisplayKeyInjective | scripts/analyze_deps.py:308-312 | distinct requirements get distinct `display_order` keys, so the sort order is fully determined |
| Analysis.OrderedDepsGroups | scripts/analyze_deps.py:307-325 | the report lists every requirement once. Inconsistent requirements come before consistent ones. Within each, external ones come first, and names are alphabetical within each of the four groups |
| AppConfiguration.EscapeReserved | sdk/appconfiguration/azure-data-appconfiguration/azure/data/appconfiguration/azure_appconfiguration_client.py:22-36 | `None` stays `None`, a string is escaped, and a list is escaped element by element with its length and order kept |
| AppConfiguration.AtEnd | sdk/appconfiguration/azure-data-appconfiguration/azure/data/appconfiguration/azure_appconfiguration_client.py:40 | definition of the regex `$` without MULTILINE: the end of the string, or just before a newline that ends it |
| AppConfiguration.Escaped | sdk/appconfiguration/azure-data-appconfiguration/azure/data/appconfiguration/azure_appconfiguration_client.py:40 | definition of where the regex matches: a backslash, a comma, or a star that is neither first nor at the end |
| AppConfiguration.EscapeFrom | sdk/appconfiguration/azure-data-appconfiguration/azure/data/appconfiguration/azure_appconfiguration_client.py:38-40 | definition of the substitution from a position on: a backslash before every matched character |
| AppConfiguration.EscapeChars | sdk/appconfiguration/azure-data-appconfiguration/azure/data/appconfiguration/azure_appconfiguration_client.py:40 | definition of the substitution over a whole string |
| AppConfiguration.EscapeText | sdk/appconfiguration/azure-data-appconfiguration/azure/data/appconfiguration/azure_appconfiguration_client.py:31-40 | definition of `escape_reserved` on one string: `""` becomes `"\0"`, otherwise the substitution |
| AppConfiguration.EscapeAndToList | sdk/appconfiguration/azure-data-appconfiguration/azure/data/appconfiguration/azure_appconfiguration_client.py:42-47 | `None` stays `None`; a single string becomes the one-element list of its escape; a list is escaped element-wise |
| AppConfiguration.EscapeRoundTrip | sdk/appconfiguration/azure-data-appconfiguration/azure/data/appconfiguration/azure_appconfiguration_client.py:38-40 | removing the inserted backslashes recovers the input |
| AppConfiguration.PlainUnchanged | sdk/appconfiguration/azure-data-appconfiguration/azure/data/appconfiguration/azure_appconfiguration_client.py:38-40 | text without a star, a comma or a backslash is passed through unchanged |
| AppConfiguration.EscapeLength | sdk/appconfiguration/azure-data-appconfiguration/azure/data/appconfiguration/azure_appconfiguration_client.py:38-40 | exactly one backslash is inserted for each matched position: every backslash and comma, and every star that is neither first nor at the end |
| AppConfiguration.EscapeExamples | sdk/appconfiguration/azure-data-appconfiguration/azure/data/appconfiguration/azure_appconfiguration_client.py:31-40 | stars at either end, and a star just before a final newline, are not escaped; `""` becomes `"\0"` |
| AppConfiguration.QuoteEtag | sdk/appconfiguration/azure-data-appconfiguration/azure/data/appconfiguration/azure_appconfiguration_client.py:49-52 | `None` and `"*"` are returned unchanged; any other tag is wrapped in double quotes |
| AppConfiguration.Truthy | sdk/appconfiguration/azure-data-appconfiguration/azure/data/appconfiguration/azure_appconfiguration_client.py:56-60 | definition of Python's truth value of an optional string, as used for `key` and `etag`: present and non-empty |
| AppConfiguration.FromCaller | sdk/appconfiguration/azure-data-appconfiguration/azure/data/appconfiguration/azure_appconfiguration_client.py:59 | definition of the store that `CaseInsensitiveDict` builds from the caller's headers: lower-cased names, later entries win |
| AppConfiguration.Initial | sdk/appconfiguration/azure-data-appconfiguration/azure/data/appconfiguration/azure_appconfiguration_client.py:59 | definition of `CaseInsensitiveDict(kwargs.get("headers"))`: empty when there are no headers |
| AppConfiguration.FromCallerLower | sdk/appconfiguration/azure-data-appconfiguration/azure/data/appconfiguration/azure_appconfiguration_client.py:59 | the header store is keyed by lower-cased names |
| AppConfiguration.FromCallerLast | sdk/appconfiguration/azure-data-appconfiguration/azure/data/appconfiguration/azure_appconfiguration_client.py:59 | a caller header is present under its lower-cased name, with the value of the last entry of that name in any case |
| AppConfiguration.HeaderDict.constructor | sdk/appconfiguration/azure-data-appconfiguration/azure/data/appconfiguration/azure_appconfiguration_client.py:59 | `CaseInsensitiveDict(headers)` holds exactly the caller headers under lower-cased names |
| AppConfiguration.HeaderDict.SetItem | sdk/appconfiguration/azure-data-appconfiguration/azure/data/appconfiguration/azure_appconfiguration_client.py:61-65 | assigning a header replaces the entry of its lower-cased name and leaves the others unchanged |
| AppConfiguration.HeaderDict.Contains | sdk/appconfiguration/azure-data-appconfiguration/azure/data/appconfiguration/azure_appconfiguration_client.py:64 | definition of `"if-match" in custom_headers`: membership of the lower-cased name, whatever the case it is asked in |
| AppConfiguration.UpdateHeaders | sdk/appconfiguration/azure-data-appconfiguration/azure/data/appconfiguration/azure_appconfiguration_client.py:54-67 | an empty or missing key is an error. A truthy tag sets If-Match to the quoted tag. Otherwise the caller's If-Match is kept, or `*` is set. Every other header is unchanged |
| AppConfiguration.PrepUpdateHeaders | sdk/appconfiguration/azure-data-appconfiguration/azure/data/appconfiguration/azure_appconfiguration_client.py:54-67 | building the dictionary key by key gives the headers or the error of `UpdateHeaders` |
| AppConfiguration.AddHeaders | sdk/appconfiguration/azure-data-appconfiguration/azure/data/appconfiguration/azure_appconfiguration_client.py:230-231 | add always sends `if-none-match: *` and leaves every other caller header unchanged |
| AppConfiguration.PrepAddHeaders | sdk/appconfiguration/azure-data-appconfiguration/azure/data/appconfiguration/azure_appconfiguration_client.py:230-231 | building the header dictionary of add gives exactly `AddHeaders` |
| AppConfiguration.EtagHeaders | sdk/appconfiguration/azure-data-appconfiguration/azure/data/appconfiguration/azure_appconfiguration_client.py:326-331 | set and delete add If-Match with the quoted tag only for a truthy tag, and otherwise send the caller's headers unchanged |
| AppConfiguration.PrepEtagHeaders | sdk/appconfiguration/azure-data-appconfiguration/azure/data/appconfiguration/azure_appconfiguration_client.py:367-371 | the header block of delete (and of set) builds exactly `EtagHeaders` |
| AppConfiguration.UpdateAgreesWithSet | sdk/appconfiguration/azure-data-appconfiguration/azure/data/appconfiguration/azure_appconfiguration_client.py:54-67 | with a truthy tag, update sends the same If-Match as set and delete; without a tag or a caller If-Match, update alone adds `*` |
| AppConfiguration.Merged | sdk/appconfiguration/azure-data-appconfiguration/azure/data/appconfiguration/azure_appconfiguration_client.py:280-286 | value, content type and tags are replaced only where the argument is not `None`; key, label and tag are unchanged |
| AppConfiguration.MergeProperties | sdk/appconfiguration/azure-data-appconfiguration/azure/data/appconfiguration/azure_appconfiguration_client.py:280-286 | passing nothing changes nothing, and merging the same arguments twice is the same as merging once |
| AppConfiguration.ConfigurationSetting.constructor | sdk/appconfiguration/azure-data-appconfiguration/azure/data/appconfiguration/azure_appconfiguration_client.py:280 | a fetched setting holds exactly the fields it was given |
| AppConfiguration.ConfigurationSetting.Merge | sdk/appconfiguration/azure-data-appconfiguration/azure/data/appconfiguration/azure_appconfiguration_client.py:280-286 | the in-place assignments leave the fields `Merged` describes |
| AppConfiguration.UpdateConfigurationSetting | sdk/appconfiguration/azure-data-appconfiguration/azure/data/appconfiguration/azure_appconfiguration_client.py:240-293 | a missing key fails before the fetched setting is touched. Otherwise the request carries the caller's key and label, the update headers and the merged setting |
| CoreSettings.ConvertBool | sdk/core/azure-core/azure/core/settings.py:63-87 | booleans (and 0 and 1) are returned as they are; `yes`/`1`/`on`/`true` in any case give true, `no`/`0`/`off`/`false` give false, and anything else is an error |
| CoreSettings.IsBoolLike | sdk/core/azure-core/azure/core/settings.py:79 | definition of `value in (True, False)`: a boolean, or the integer 0 or 1 that compares equal to one |
| CoreSettings.ConvertLogging | sdk/core/azure-core/azure/core/settings.py:90-125 | the five level numbers are returned as they are; a level name in any case gives its number; anything else is an error |
| CoreSettings.IsLevel | sdk/core/azure-core/azure/core/settings.py:118 | definition of `value in set(_levels.values())`: one of the five level numbers |
| CoreSettings.Convert | sdk/core/azure-core/azure/core/settings.py:218 | definition of applying the setting's `convert`, which is the identity when none was given |
| CoreSettings.LevelNames | sdk/core/azure-core/azure/core/settings.py:121-125 | every level name, in any case, converts to its level number |
| CoreSettings.ConvertIdempotent | sdk/core/azure-core/azure/core/settings.py:63-125 | converting a converted value again gives the same result, for every converter |
| CoreSettings.ConvertIgnoresCase | sdk/core/azure-core/azure/core/settings.py:79-125 | the string converters give the same result for a string and its case-mapped form |
| CoreSettings.Raw | sdk/core/azure-core/azure/core/settings.py:237-257 | definition of the value `__call__` hands to `convert`: the immediate value, user value, environment variable, hook result or default, tried in that order; `None` where it raises |
| CoreSettings.Resolve | sdk/core/azure-core/azure/core/settings.py:225-257 | definition of `__call__`: the converted value, or the `RuntimeError` when no source has a value |
| CoreSettings.Sources | sdk/core/azure-core/azure/core/settings.py:187-193 | definition of the documented precedence as a list of five candidates, each absent where that source has nothing; `RawIsFirstPresent` relates it to `Raw` |
| CoreSettings.RawIsFirstPresent | sdk/core/azure-core/azure/core/settings.py:225-257 | `__call__` takes the first source in precedence order that has a value: immediate, user, environment, hook, default |
| CoreSettings.UserValueWins | sdk/core/azure-core/azure/core/settings.py:237-277 | after `set_value(v)` a call without an immediate value returns `convert(v)`, whatever the environment and the hook hold |
| CoreSettings.HookStopsSearch | sdk/core/azure-core/azure/core/settings.py:250-251 | a system hook ends the search even when it returns `None` and a default exists |
| CoreSettings.EnvironmentWins | sdk/core/azure-core/azure/core/settings.py:246-247 | an environment variable that is present wins over the hook and the default, even when its value is the empty string |
| CoreSettings.NoSourceFails | sdk/core/azure-core/azure/core/settings.py:257 | without any source the call raises |
| CoreSettings.PrioritizedSetting.constructor | sdk/core/azure-core/azure/core/settings.py:212-219 | a new setting has its name, environment variable, default and converter, and no user value |
| CoreSettings.PrioritizedSetting.Call | sdk/core/azure-core/azure/core/settings.py:225-257 | a non-None immediate value is converted and returned, and otherwise the call resolves the setting's current state |
| CoreSettings.PrioritizedSetting.SetValue | sdk/core/azure-core/azure/core/settings.py:265-277 | only the user value changes |
| CoreSettings.PrioritizedSetting.UnsetValue | sdk/core/azure-core/azure/core/settings.py:279-282 | only the user value changes, back to the sentinel |
| CoreSettings.UnsetForgets | sdk/core/azure-core/azure/core/settings.py:279-282 | after `set_value(v)` and then `unset_value()`, the setting answers every call as a freshly constructed setting with the same definition does |
| CoreSettings.DefaultsOf | sdk/core/azure-core/azure/core/settings.py:378-384 | `defaults` gives each setting's raw default, not passed through its converter |
| CoreSettings.ConfigOf | sdk/core/azure-core/azure/core/settings.py:392-405 | `config(**kw)` fails when some setting fails to resolve, even one that `kw` overrides. Otherwise each entry of `kw` is taken as given, and every other setting has its resolved value |
| CoreSettings.Settings.Current | sdk/core/azure-core/azure/core/settings.py:386-390 | `current` is `defaults` when `defaults_only` is set, and `config()` otherwise |
| CoreSettings.Settings.Defaults | sdk/core/azure-core/azure/core/settings.py:378-384 | definition of the `defaults` property: `DefaultsOf` the object's two settings |
| CoreSettings.Settings.Config | sdk/core/azure-core/azure/core/settings.py:392-405 | definition of `config(**kw)`: `ConfigOf` the object's two settings, `kw` and the environment |
| CoreSettings.Settings.constructor | sdk/core/azure-core/azure/core/settings.py:367-417 | a new `Settings` has `defaults_only` off, and its two settings are distinct and hold the definitions of `log_level` and `tracing_enabled` |
| CoreSettings.Settings.SetDefaultsOnly | sdk/core/azure-core/azure/core/settings.py:374-376 | the setter stores the given flag |
| CoreSettings.FreshSettings | sdk/core/azure-core/azure/core/settings.py:411-417 | with an empty environment, `config()` gives level INFO and tracing off |
| CoreSettings.BadEnvironmentRaises | sdk/core/azure-core/azure/core/settings.py:392-405 | an unconvertible `AZURE_LOG_LEVEL` makes `config` raise even when the call overrides the level |

## Left out

- `parse_setup`: it executes a patched `setup.py` and changes the working
  directory. Its result, the version and the requirement list, is an input in
  `Manifest`.
- `locate_libs` and `locate_wheels` are not modelled: they glob the file
  system. The located packages are an input, in the order the locator sorts
  them.
- The file-reading half of `get_wheel_deps` (`WheelFile`, METADATA) is outside
  the model. A wheel without `Requires-Dist` behaves as one with no
  requirements: its package is recorded, and the `except` then ends its entry.
- `Requirements.ParseReq` is a simplified splitter, not a PEP 508 parser.
  - The name is the longest prefix of ASCII letters, digits, `-`, `_` and `.`,
    and it must start with a letter or digit.
  - The key is that name in lower case, and the specifier is the rest,
    verbatim.
  - Not modelled: `pkg_resources` canonicalisation (`safe_name`, specifier
    reordering, whitespace), markers, extras, and the `str.replace(key, '')`
    quirk.
- Printing, `--verbose`, `argparse`, `sys.exit`, the Jinja2 report
  (`render_report`) and its `datetime`/`os.environ` context are left out. The
  exit code is a returned value.
- `Analysis.OrderedDeps` covers only the ordering step. `external` is a list
  in analyze_deps.py; the model uses a set, because only membership is used.
- `Analysis.CountViolations` walks the changed requirements and their unmatched
  specifiers in sorted order. The source walks a dictionary and a set, and the
  count does not depend on the order.
- Baseline lines are modelled without line terminators, and the UTF-8 BOM
  handling of `encoding='utf-8-sig'` is not modelled.
- The App Configuration client's pipeline, transport, credentials,
  `distributed_trace`, the generated `ConfigurationClient` calls and
  connection-string parsing are not modelled: they are HTTP I/O or code not
  shown.
- `list_configuration_settings`, `list_revisions` and
  `get_configuration_setting` are not modelled beyond the filter escaping they
  apply. Their remote calls are left out.
- `AppConfiguration.EscapeReserved` handles strings and lists of strings.
  `str(value)` on other types is left out.
- `CaseInsensitiveDict` comes from the `requests` library. `HeaderDict` models
  only what the client uses: lower-cased keys, assignment and membership. It
  lower-cases ASCII letters only, whereas Python's `str.lower` is Unicode-wide.
  The cased spelling of names that the dictionary preserves is not modelled.
- The case mapping of `convert_bool` and `convert_logging` (`str.lower`,
  `str.upper`) is ASCII-only in the model.
- `convert_tracing_impl`, `get_opencensus_span*` and the
  `tracing_implementation` setting are not modelled. They depend on dynamic
  imports and `sys.modules`. `CoreSettings.ConfigOf` therefore covers
  `log_level` and `tracing_enabled` only.
- `namedtuple` construction in `_config` is modelled as a map from field name
  to value.
- In settings.py the settings are class attributes of `Settings`, shared by all
  instances; the model makes them fields of one `Settings` object.
- A system hook is modelled by its result for the call in question, an
  optional value.
- The `__get__`/`__set__` descriptor protocol is not modelled separately:
  `__set__` is `set_value`.
