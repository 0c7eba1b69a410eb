/**
  Python compares `str` values by code point, lexicographically; `sorted` on a
  collection of distinct strings yields them in that order. This module defines
  that order on `seq<char>`, proves it a strict total order, and provides the
  sort used by the dependency checker (`sorted(keys)` and
  `sorted(keys, key=...)`).
 */
module Ordering {

  /** Lexicographic code-point order: `a < b` in Python. */
  predicate Less(a: string, b: string)
    decreases |a|
  {
    if |a| == 0 then |b| > 0
    else if |b| == 0 then false
    else if a[0] != b[0] then a[0] < b[0]
    else Less(a[1..], b[1..])
  }

  lemma {:induction false} LessIrreflexive(a: string)
    ensures !Less(a, a)
    decreases |a|
  {
    if |a| > 0 { LessIrreflexive(a[1..]); }
  }

  lemma {:induction false} LessTransitive(a: string, b: string, c: string)
    requires Less(a, b) && Less(b, c)
    ensures Less(a, c)
    decreases |a|
  {
    if |a| > 0 && |b| > 0 && |c| > 0 && a[0] == b[0] && b[0] == c[0] {
      LessTransitive(a[1..], b[1..], c[1..]);
    }
  }

  lemma {:induction false} LessTotal(a: string, b: string)
    requires a != b
    ensures Less(a, b) || Less(b, a)
    decreases |a|
  {
    if |a| > 0 && |b| > 0 && a[0] == b[0] {
      assert a == [a[0]] + a[1..] && b == [b[0]] + b[1..];
      LessTotal(a[1..], b[1..]);
    }
  }

  lemma LessAsymmetric(a: string, b: string)
    requires Less(a, b)
    ensures !Less(b, a)
  {
    if Less(b, a) {
      LessTransitive(a, b, a);
      LessIrreflexive(a);
    }
  }

  /** Prefixing the same character keeps the order. */
  lemma {:induction false} PrefixKeepsOrder(c: char, a: string, b: string)
    ensures Less([c] + a, [c] + b) <==> Less(a, b)
  {
    assert ([c] + a)[1..] == a && ([c] + b)[1..] == b;
  }

  /** The key function gives distinct keys to distinct members of `s`. */
  ghost predicate InjectiveOn(s: set<string>, key: string -> string)
  {
    forall a, b :: a in s && b in s && key(a) == key(b) ==> a == b
  }

  /** `s` is in strictly increasing order of `key`. */
  ghost predicate SortedBy(s: seq<string>, key: string -> string)
  {
    forall i, j {:trigger Less(key(s[i]), key(s[j]))} :: 0 <= i < j < |s| ==> Less(key(s[i]), key(s[j]))
  }

  predicate IsLeast(m: string, s: set<string>, key: string -> string)
  {
    m in s && forall x :: x in s && x != m ==> Less(key(m), key(x))
  }

  lemma {:induction false} LeastExists(s: set<string>, key: string -> string)
    requires s != {} && InjectiveOn(s, key)
    ensures exists m :: IsLeast(m, s, key)
    decreases |s|
  {
    var y :| y in s;
    var rest := s - {y};
    if rest == {} {
      assert s == {y};
      assert IsLeast(y, s, key);
    } else {
      LeastExists(rest, key);
      var m :| IsLeast(m, rest, key);
      if Less(key(y), key(m)) {
        forall x | x in s && x != y ensures Less(key(y), key(x)) {
          if x != m { LessTransitive(key(y), key(m), key(x)); }
        }
        assert IsLeast(y, s, key);
      } else {
        assert key(y) != key(m);
        LessTotal(key(y), key(m));
        assert IsLeast(m, s, key);
      }
    }
  }

  lemma LeastUnique(s: set<string>, key: string -> string)
    ensures forall a, b :: IsLeast(a, s, key) && IsLeast(b, s, key) ==> a == b
  {
    forall a, b | IsLeast(a, s, key) && IsLeast(b, s, key) ensures a == b {
      if a != b { LessAsymmetric(key(a), key(b)); }
    }
  }

  /** The member of `s` with the smallest key. */
  function Least(s: set<string>, key: string -> string): (m: string)
    requires s != {} && InjectiveOn(s, key)
    ensures m in s
    ensures forall x :: x in s && x != m ==> Less(key(m), key(x))
  {
    LeastExists(s, key);
    LeastUnique(s, key);
    var m :| m in s && IsLeast(m, s, key); m
  }

  /** `sorted(s, key=key)` for a set of strings whose keys are distinct. */
  function SortBy(s: set<string>, key: string -> string): (r: seq<string>)
    requires InjectiveOn(s, key)
    ensures |r| == |s|
    ensures forall x :: x in r <==> x in s
    ensures SortedBy(r, key)
    decreases |s|
  {
    if s == {} then []
    else
      var m := Least(s, key);
      var tail := SortBy(s - {m}, key);
      [m] + tail
  }

  /** `sorted(s)`: the identity key. */
  function Sorted(s: set<string>): (r: seq<string>)
    ensures |r| == |s|
    ensures forall x :: x in r <==> x in s
    ensures SortedBy(r, k => k)
  {
    SortBy(s, k => k)
  }

  /** Two positions of a sorted sequence are in key order. */
  lemma SortedAt(s: seq<string>, key: string -> string, i: int, j: int)
    requires SortedBy(s, key) && 0 <= i < j < |s|
    ensures Less(key(s[i]), key(s[j]))
  {
  }

  /** Appending an element above every present one keeps a sequence sorted. */
  lemma AppendSorted(s: seq<string>, x: string, key: string -> string)
    requires SortedBy(s, key)
    requires forall y :: y in s ==> Less(key(y), key(x))
    ensures SortedBy(s + [x], key)
  {
    var t := s + [x];
    forall i, j | 0 <= i < j < |t| ensures Less(key(t[i]), key(t[j])) {
      if j == |s| {
        assert t[i] == s[i] && s[i] in s;
      } else {
        assert t[i] == s[i] && t[j] == s[j];
      }
    }
  }

  /** A prefix of a sorted sequence is sorted. */
  lemma SortedPrefix(s: seq<string>, key: string -> string, n: nat)
    requires SortedBy(s, key) && n <= |s|
    ensures SortedBy(s[..n], key)
  {
    var t := s[..n];
    forall i, j | 0 <= i < j < |t| ensures Less(key(t[i]), key(t[j])) {
      SortedAt(s, key, i, j);
    }
  }

  /** Every element before the last of a sorted sequence is below the last. */
  lemma SortedLast(s: seq<string>, key: string -> string)
    requires SortedBy(s, key) && |s| > 0
    ensures forall y :: y in s[..|s| - 1] ==> Less(key(y), key(s[|s| - 1]))
  {
    forall y | y in s[..|s| - 1] ensures Less(key(y), key(s[|s| - 1])) {
      var j :| 0 <= j < |s| - 1 && s[j] == y;
      SortedAt(s, key, j, |s| - 1);
    }
  }

  /** A sequence sorted strictly by key has no repeated element. */
  lemma SortedDistinct(s: seq<string>, key: string -> string)
    requires SortedBy(s, key)
    ensures forall i, j :: 0 <= i < j < |s| ==> s[i] != s[j]
  {
    forall i, j | 0 <= i < j < |s| ensures s[i] != s[j] {
      if s[i] == s[j] { LessIrreflexive(key(s[i])); }
    }
  }

  lemma SameMembersEmpty(a: seq<string>, b: seq<string>)
    requires forall x :: x in a <==> x in b
    ensures |a| == 0 <==> |b| == 0
  {
    if |a| > 0 { assert a[0] in a; }
    if |b| > 0 { assert b[0] in b; }
  }

  /** Two sequences sorted strictly by the same key with the same members are equal. */
  lemma {:induction false} SortedUnique(a: seq<string>, b: seq<string>, key: string -> string)
    requires SortedBy(a, key) && SortedBy(b, key)
    requires forall x :: x in a <==> x in b
    ensures a == b
    decreases |a|
  {
    SameMembersEmpty(a, b);
    if |a| > 0 {
      if a[0] != b[0] {
        assert b[0] in a;
        var i :| 0 <= i < |a| && a[i] == b[0];
        assert a[0] in b;
        var j :| 0 <= j < |b| && b[j] == a[0];
        assert i > 0 && j > 0;
        LessAsymmetric(key(a[0]), key(a[i]));
      }
      SortedDistinct(a, key);
      SortedDistinct(b, key);
      forall x ensures x in a[1..] <==> x in b[1..] {
        if x in a[1..] {
          var i :| 1 <= i < |a| && a[i] == x;
          assert x in b;
          var j :| 0 <= j < |b| && b[j] == x;
          assert b[1..][j - 1] == x;
        }
        if x in b[1..] {
          var j :| 1 <= j < |b| && b[j] == x;
          assert x in a;
          var i :| 0 <= i < |a| && a[i] == x;
          assert a[1..][i - 1] == x;
        }
      }
      SortedUnique(a[1..], b[1..], key);
    }
  }
}
