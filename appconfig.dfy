/**
  Request preparation of the Azure App Configuration client
  (azure_appconfiguration_client.py): escaping of key and label filters, entity
  tag quoting, the conditional headers of add, update, set and delete
  (If-Match and If-None-Match, sections 3.1 and 3.2 of RFC 7232), and the
  "None means unchanged" merge of `update_configuration_setting`.
 */
module AppConfiguration {
  import opened Wrappers
  import opened Text

  // ---------------------------------------------------------------------------
  // Escaping of filters.
  // ---------------------------------------------------------------------------

  /** A key or label filter as callers pass it: `None`, one string, or a list of strings. */
  datatype Filter = Absent | One(s: string) | Many(xs: seq<string>)

  /**
    Python's `$` without MULTILINE: the end of the string, or just before a
    newline that ends it.
   */
  predicate AtEnd(s: string, j: nat)
  {
    j == |s| || (j == |s| - 1 && s[j] == '\n')
  }

  /**
    The regex `((?!^)\*(?!$)|\\|,)` matches the character at `i`: a backslash or
    a comma, or a star that is neither first nor at the end.
   */
  predicate Escaped(s: string, i: nat)
    requires i < |s|
  {
    s[i] == '\\' || s[i] == ',' || (s[i] == '*' && i != 0 && !AtEnd(s, i + 1))
  }

  /** `re.sub(..., r"\\\1", s)` from position `i` on: a backslash before every matched character. */
  function EscapeFrom(s: string, i: nat): string
    requires i <= |s|
    decreases |s| - i
  {
    if i == |s| then ""
    else (if Escaped(s, i) then ['\\', s[i]] else [s[i]]) + EscapeFrom(s, i + 1)
  }

  /** The substitution over a whole string. */
  function EscapeChars(s: string): string
  {
    EscapeFrom(s, 0)
  }

  /** `escape_reserved` on one string: the empty string becomes `"\0"`. */
  function EscapeText(s: string): string
  {
    if s == "" then "\0" else EscapeChars(s)
  }

  /** `escape_reserved`: `None` stays `None`, a list is escaped element by element. */
  function EscapeReserved(f: Filter): (r: Filter)
    ensures f.Absent? <==> r.Absent?
    ensures f.One? ==> r == One(EscapeText(f.s))
    ensures f.Many? ==> r.Many? && |r.xs| == |f.xs| && forall i :: 0 <= i < |f.xs| ==> r.xs[i] == EscapeText(f.xs[i])
  {
    match f
    case Absent => Absent
    case One(s) => One(EscapeText(s))
    case Many(xs) => Many(seq(|xs|, i requires 0 <= i < |xs| => EscapeText(xs[i])))
  }

  /** `escape_and_tolist`: a single string becomes a one-element list before escaping. */
  function EscapeAndToList(f: Filter): (r: Filter)
    ensures f.Absent? <==> r.Absent?
    ensures !r.One?
    ensures f.One? ==> r == Many([EscapeText(f.s)])
    ensures f.Many? ==> r == EscapeReserved(f)
  {
    match f
    case Absent => Absent
    case One(s) => EscapeReserved(Many([s]))
    case Many(_) => EscapeReserved(f)
  }

  /** Removing the escapes: a backslash and the character after it become that character. */
  function Unescape(t: string): string
    decreases |t|
  {
    if |t| == 0 then ""
    else if t[0] == '\\' && |t| >= 2 then [t[1]] + Unescape(t[2..])
    else [t[0]] + Unescape(t[1..])
  }

  /** Removing the inserted backslashes recovers the input. */
  lemma {:induction false} UnescapeFrom(s: string, i: nat)
    requires i <= |s|
    ensures Unescape(EscapeFrom(s, i)) == s[i..]
    decreases |s| - i
  {
    if i < |s| {
      var rest := EscapeFrom(s, i + 1);
      UnescapeFrom(s, i + 1);
      if Escaped(s, i) {
        var t := ['\\', s[i]] + rest;
        assert t[2..] == rest;
      } else {
        var t := [s[i]] + rest;
        assert t[1..] == rest;
      }
      assert s[i..] == [s[i]] + s[i + 1..];
    }
  }

  lemma EscapeRoundTrip(s: string)
    ensures Unescape(EscapeChars(s)) == s
  {
    UnescapeFrom(s, 0);
  }

  /** Text without a star, a comma or a backslash is passed through unchanged. */
  lemma {:induction false} PlainFrom(s: string, i: nat)
    requires i <= |s|
    requires forall k :: 0 <= k < |s| ==> s[k] != '*' && s[k] != ',' && s[k] != '\\'
    ensures EscapeFrom(s, i) == s[i..]
    decreases |s| - i
  {
    if i < |s| {
      PlainFrom(s, i + 1);
      assert s[i..] == [s[i]] + s[i + 1..];
    }
  }

  lemma PlainUnchanged(s: string)
    requires forall k :: 0 <= k < |s| ==> s[k] != '*' && s[k] != ',' && s[k] != '\\'
    ensures EscapeChars(s) == s
  {
    PlainFrom(s, 0);
  }

  /** Escaping adds exactly one character per matched position and never drops one. */
  lemma {:induction false} EscapeLength(s: string, i: nat)
    requires i <= |s|
    ensures |EscapeFrom(s, i)| == |s| - i + |set k | i <= k < |s| && Escaped(s, k)|
    decreases |s| - i
  {
    if i < |s| {
      EscapeLength(s, i + 1);
      var later := set k | i + 1 <= k < |s| && Escaped(s, k);
      var here := set k | i <= k < |s| && Escaped(s, k);
      if Escaped(s, i) {
        assert here == later + {i};
      } else {
        assert here == later;
      }
    }
  }

  /** A star is escaped in the middle but not at either end, and commas and backslashes always are. */
  lemma EscapeExamples()
    ensures EscapeChars("*a*b*") == "*a\\*b*"
    ensures EscapeChars("a,b\\") == "a\\,b\\\\"
    ensures EscapeChars("a*\n") == "a*\n"
    ensures EscapeText("") == "\0"
  {
    assert AtEnd("*a*b*", 5) && !AtEnd("*a*b*", 3);
    assert AtEnd("a*\n", 2);
  }

  // ---------------------------------------------------------------------------
  // Entity tags.
  // ---------------------------------------------------------------------------

  /** `quote_etag`: `None` and `"*"` unchanged, any other tag in double quotes (section 2.3 of RFC 7232). */
  function QuoteEtag(etag: Option<string>): (r: Option<string>)
    ensures r.None? <==> etag.None?
    ensures etag == Some("*") ==> r == etag
    ensures etag.Some? && etag.value != "*" ==>
      && |r.value| == |etag.value| + 2
      && r.value[0] == '"' && r.value[|r.value| - 1] == '"'
      && r.value[1..|r.value| - 1] == etag.value
  {
    if etag != Some("*") && etag.Some? then Some("\"" + etag.value + "\"") else etag
  }

  /** Python's truth value of an optional string: present and non-empty. */
  predicate Truthy(s: Option<string>)
  {
    s.Some? && s.value != ""
  }

  // ---------------------------------------------------------------------------
  // Headers.
  // ---------------------------------------------------------------------------

  /** The headers a caller passes, in order; `None` when there are none. */
  type CallerHeaders = Option<seq<(string, string)>>

  /** The store of a `CaseInsensitiveDict` built from the caller's headers: lower-cased names, later entries win. */
  function FromCaller(items: seq<(string, string)>): map<string, string>
    decreases |items|
  {
    if |items| == 0 then map[]
    else
      var last := items[|items| - 1];
      FromCaller(items[..|items| - 1])[Lower(last.0) := last.1]
  }

  function Initial(headers: CallerHeaders): map<string, string>
  {
    if headers.None? then map[] else FromCaller(headers.value)
  }

  /** Every name in the store is lower case. */
  lemma {:induction false} FromCallerLower(items: seq<(string, string)>)
    ensures forall k :: k in FromCaller(items) ==> Lower(k) == k
    decreases |items|
  {
    if |items| > 0 {
      FromCallerLower(items[..|items| - 1]);
      LowerIdempotent(items[|items| - 1].0);
    }
  }

  /** A name without upper-case letters is its own lower-cased form. */
  lemma LowerPlain(s: string)
    requires forall i :: 0 <= i < |s| ==> !('A' <= s[i] <= 'Z')
    ensures Lower(s) == s
  {
  }

  /** A name is present when some caller entry has that name in any case; the last such entry gives the value. */
  lemma {:induction false} FromCallerLast(items: seq<(string, string)>, k: string, i: nat)
    requires i < |items| && Lower(items[i].0) == k
    requires forall j :: i < j < |items| ==> Lower(items[j].0) != k
    ensures k in FromCaller(items) && FromCaller(items)[k] == items[i].1
    decreases |items|
  {
    if i < |items| - 1 {
      FromCallerLast(items[..|items| - 1], k, i);
    }
  }

  /** `CaseInsensitiveDict`: a store keyed by lower-cased header names. */
  class HeaderDict {
    var store: map<string, string>

    /** `CaseInsensitiveDict(kwargs.get("headers"))`. */
    constructor (headers: CallerHeaders)
      ensures store == Initial(headers)
    {
      store := map[];
      new;
      if headers.Some? {
        var items := headers.value;
        for i := 0 to |items|
          invariant store == FromCaller(items[..i])
        {
          assert items[..i + 1][..i] == items[..i];
          store := store[Lower(items[i].0) := items[i].1];
        }
        assert items[..|items|] == items;
      }
    }

    /** `name in headers`, whatever the case of `name`. */
    predicate Contains(name: string)
      reads this
    {
      Lower(name) in store
    }

    /** `headers[name] = value`. */
    method SetItem(name: string, value: string)
      modifies this
      ensures store == old(store)[Lower(name) := value]
    {
      store := store[Lower(name) := value];
    }
  }

  /**
    The headers `prep_update_configuration_setting` returns, or the error it
    raises for a missing or empty key. A truthy tag sets If-Match to the quoted
    tag; otherwise the caller's If-Match stays, and `*` is set without one.
   */
  function UpdateHeaders(key: Option<string>, etag: Option<string>, headers: CallerHeaders): (r: Result<map<string, string>, string>)
    ensures r.Failure? <==> !Truthy(key)
    ensures r.Success? ==> "if-match" in r.value
    ensures r.Success? && Truthy(etag) ==> r.value["if-match"] == QuoteEtag(etag).value
    ensures r.Success? && !Truthy(etag) ==>
      r.value["if-match"] == (if "if-match" in Initial(headers) then Initial(headers)["if-match"] else "*")
    ensures r.Success? ==> forall k :: k != "if-match" ==>
      (k in r.value <==> k in Initial(headers)) && (k in r.value ==> r.value[k] == Initial(headers)[k])
  {
    var custom := Initial(headers);
    if !Truthy(key) then Failure("key is mandatory to update a ConfigurationSetting")
    else if Truthy(etag) then Success(custom["if-match" := QuoteEtag(etag).value])
    else if "if-match" !in custom then Success(custom["if-match" := "*"])
    else Success(custom)
  }

  /** `prep_update_configuration_setting`, building the dictionary key by key. */
  method PrepUpdateHeaders(key: Option<string>, etag: Option<string>, headers: CallerHeaders)
    returns (r: Result<HeaderDict, string>)
    ensures r.Failure? <==> UpdateHeaders(key, etag, headers).Failure?
    ensures r.Failure? ==> r.error == UpdateHeaders(key, etag, headers).error
    ensures r.Success? ==> fresh(r.value) && r.value.store == UpdateHeaders(key, etag, headers).value
  {
    if !Truthy(key) {
      return Failure("key is mandatory to update a ConfigurationSetting");
    }
    var custom := new HeaderDict(headers);
    LowerPlain("if-match");
    if Truthy(etag) {
      custom.SetItem("if-match", QuoteEtag(etag).value);
    } else if !custom.Contains("if-match") {
      custom.SetItem("if-match", "*");
    }
    return Success(custom);
  }

  /** The headers `add_configuration_setting` sends: always `if-none-match: *`, so an existing setting is not replaced. */
  function AddHeaders(headers: CallerHeaders): (r: map<string, string>)
    ensures "if-none-match" in r && r["if-none-match"] == "*"
    ensures forall k :: k != "if-none-match" ==>
      (k in r <==> k in Initial(headers)) && (k in r ==> r[k] == Initial(headers)[k])
  {
    Initial(headers)["if-none-match" := "*"]
  }

  /**
    The headers `set_configuration_setting` and `delete_configuration_setting`
    send: If-Match with the quoted tag only when the tag is truthy, the caller's
    headers otherwise.
   */
  function EtagHeaders(etag: Option<string>, headers: CallerHeaders): (r: map<string, string>)
    ensures Truthy(etag) ==> "if-match" in r && r["if-match"] == QuoteEtag(etag).value
    ensures !Truthy(etag) ==> r == Initial(headers)
    ensures forall k :: k != "if-match" ==>
      (k in r <==> k in Initial(headers)) && (k in r ==> r[k] == Initial(headers)[k])
  {
    if Truthy(etag) then Initial(headers)["if-match" := QuoteEtag(etag).value] else Initial(headers)
  }

  method PrepAddHeaders(headers: CallerHeaders) returns (custom: HeaderDict)
    ensures fresh(custom) && custom.store == AddHeaders(headers)
  {
    custom := new HeaderDict(headers);
    LowerPlain("if-none-match");
    custom.SetItem("if-none-match", "*");
  }

  /** The header block of `set_configuration_setting` and of `delete_configuration_setting`. */
  method PrepEtagHeaders(etag: Option<string>, headers: CallerHeaders) returns (custom: HeaderDict)
    ensures fresh(custom) && custom.store == EtagHeaders(etag, headers)
  {
    custom := new HeaderDict(headers);
    LowerPlain("if-match");
    if Truthy(etag) {
      custom.SetItem("if-match", QuoteEtag(etag).value);
    }
  }

  /** With a truthy tag, update and set or delete send the same If-Match; without one, update falls back to `*`. */
  lemma UpdateAgreesWithSet(key: Option<string>, etag: Option<string>, headers: CallerHeaders)
    requires Truthy(key)
    ensures Truthy(etag) ==> UpdateHeaders(key, etag, headers).value == EtagHeaders(etag, headers)
    ensures !Truthy(etag) && "if-match" !in Initial(headers) ==>
      UpdateHeaders(key, etag, headers).value == EtagHeaders(etag, headers)["if-match" := "*"]
  {
  }

  // ---------------------------------------------------------------------------
  // The fields of a configuration setting.
  // ---------------------------------------------------------------------------

  /** The fields of a `ConfigurationSetting`, as a value. */
  datatype Fields = Fields(
    key: string,
    settingLabel: Option<string>,
    value: Option<string>,
    contentType: Option<string>,
    tags: Option<map<string, string>>,
    etag: Option<string>)

  /** The fields after `update_configuration_setting` has applied its arguments: `None` means unchanged. */
  function Merged(f: Fields, value: Option<string>, contentType: Option<string>, tags: Option<map<string, string>>): (r: Fields)
    ensures r.key == f.key && r.settingLabel == f.settingLabel && r.etag == f.etag
    ensures r.value == (if value.Some? then value else f.value)
    ensures r.contentType == (if contentType.Some? then contentType else f.contentType)
    ensures r.tags == (if tags.Some? then tags else f.tags)
  {
    f.(value := if value.Some? then value else f.value,
       contentType := if contentType.Some? then contentType else f.contentType,
       tags := if tags.Some? then tags else f.tags)
  }

  /** Passing nothing changes nothing, and merging the same arguments twice is merging them once. */
  lemma MergeProperties(f: Fields, value: Option<string>, contentType: Option<string>, tags: Option<map<string, string>>)
    ensures Merged(f, None, None, None) == f
    ensures Merged(Merged(f, value, contentType, tags), value, contentType, tags) == Merged(f, value, contentType, tags)
  {
  }

  /** A `ConfigurationSetting` as the service returns it; `update_configuration_setting` overwrites its fields. */
  class ConfigurationSetting {
    var key: string
    var settingLabel: Option<string>
    var value: Option<string>
    var contentType: Option<string>
    var tags: Option<map<string, string>>
    var etag: Option<string>

    constructor (f: Fields)
      ensures Snapshot() == f
    {
      key, settingLabel, value, contentType, tags, etag := f.key, f.settingLabel, f.value, f.contentType, f.tags, f.etag;
    }

    function Snapshot(): Fields
      reads this
    {
      Fields(key, settingLabel, value, contentType, tags, etag)
    }

    /** The three `if ... is not None` assignments. */
    method Merge(value': Option<string>, contentType': Option<string>, tags': Option<map<string, string>>)
      modifies this
      ensures Snapshot() == Merged(old(Snapshot()), value', contentType', tags')
    {
      if value'.Some? {
        value := value';
      }
      if contentType'.Some? {
        contentType := contentType';
      }
      if tags'.Some? {
        tags := tags';
      }
    }
  }

  /**
    What `update_configuration_setting` sends: the caller's key and label, the
    headers and the merged setting.
   */
  datatype UpdateRequest = UpdateRequest(key: string, settingLabel: Option<string>, headers: map<string, string>, setting: Fields)

  /**
    `update_configuration_setting` up to the remote call: the headers are
    prepared first, so a missing key raises before anything is fetched;
    `current` stands for what `get_configuration_setting` fetched.
   */
  method UpdateConfigurationSetting(
    key: Option<string>, value: Option<string>, contentType: Option<string>, tags: Option<map<string, string>>,
    settingLabel: Option<string>, etag: Option<string>, headers: CallerHeaders, current: ConfigurationSetting)
    returns (r: Result<UpdateRequest, string>)
    modifies current
    ensures r.Failure? <==> !Truthy(key)
    ensures r.Failure? ==> current.Snapshot() == old(current.Snapshot())
    ensures r.Success? ==> current.Snapshot() == Merged(old(current.Snapshot()), value, contentType, tags)
    ensures r.Success? ==> r.value == UpdateRequest(key.value, settingLabel, UpdateHeaders(key, etag, headers).value, current.Snapshot())
  {
    var prepared := PrepUpdateHeaders(key, etag, headers);
    if prepared.Failure? {
      return Failure(prepared.error);
    }
    current.Merge(value, contentType, tags);
    return Success(UpdateRequest(key.value, settingLabel, prepared.value.store, current.Snapshot()));
  }
}
