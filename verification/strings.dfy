/**
 Text helpers with the semantics of the Rust `str` methods the parser uses:
 `trim`, `trim_matches`, `trim_start_matches`, `split`, `split_once`,
 `ends_with` and ASCII lower-casing. Strings are sequences of Unicode scalar
 values; a set of characters stands for a Rust character pattern.
 */
module Strings {

  /** The characters Rust's `char::is_whitespace` accepts (the Unicode White_Space property). */
  const Whitespace: set<char> := {
    '\t', '\n', '\U{000B}', '\U{000C}', '\r', ' ', '\U{0085}', '\U{00A0}', '\U{1680}',
    '\U{2000}', '\U{2001}', '\U{2002}', '\U{2003}', '\U{2004}', '\U{2005}', '\U{2006}',
    '\U{2007}', '\U{2008}', '\U{2009}', '\U{200A}', '\U{2028}', '\U{2029}', '\U{202F}',
    '\U{205F}', '\U{3000}'
  }

  /** `s` neither starts nor ends with a character of `drop`. */
  predicate IsTrimmedBy(s: string, drop: set<char>) {
    s == [] || (s[0] !in drop && s[|s| - 1] !in drop)
  }

  predicate IsTrimmed(s: string) {
    IsTrimmedBy(s, Whitespace)
  }

  predicate AllIn(s: string, drop: set<char>) {
    forall i :: 0 <= i < |s| ==> s[i] in drop
  }

  /** Rust's `trim_start_matches`: the longest suffix of `s` that does not start with a dropped character. */
  function TrimStartBy(s: string, drop: set<char>): (r: string)
    ensures |r| <= |s| && r == s[|s| - |r|..]
    ensures r != [] ==> r[0] !in drop
    decreases |s|
  {
    if s != [] && s[0] in drop then TrimStartBy(s[1..], drop) else s
  }

  /** Start-trimming removes only dropped characters. */
  lemma {:induction false} TrimStartRemovesDropped(s: string, drop: set<char>)
    ensures AllIn(s[..|s| - |TrimStartBy(s, drop)|], drop)
    decreases |s|
  {
    if s != [] && s[0] in drop {
      TrimStartRemovesDropped(s[1..], drop);
      var k := |s| - |TrimStartBy(s, drop)|;
      forall i | 0 <= i < k ensures s[..k][i] in drop {
        if i > 0 {
          assert s[..k][i] == s[1..][..k - 1][i - 1];
        }
      }
    }
  }

  /** Rust's `trim_end_matches`: the longest prefix of `s` that does not end with a dropped character. */
  function TrimEndBy(s: string, drop: set<char>): (r: string)
    ensures |r| <= |s| && r == s[..|r|]
    ensures r != [] ==> r[|r| - 1] !in drop
    decreases |s|
  {
    if s != [] && s[|s| - 1] in drop then TrimEndBy(s[..|s| - 1], drop) else s
  }

  /** End-trimming removes only dropped characters. */
  lemma {:induction false} TrimEndRemovesDropped(s: string, drop: set<char>)
    ensures AllIn(s[|TrimEndBy(s, drop)|..], drop)
    decreases |s|
  {
    if s != [] && s[|s| - 1] in drop {
      TrimEndRemovesDropped(s[..|s| - 1], drop);
      var k := |TrimEndBy(s, drop)|;
      forall i | 0 <= i < |s| - k ensures s[k..][i] in drop {
        if i < |s| - k - 1 {
          assert s[k..][i] == s[..|s| - 1][k..][i];
        }
      }
    }
  }

  /** Rust's `trim_matches`: both ends stripped of dropped characters. */
  function TrimBy(s: string, drop: set<char>): (r: string)
    ensures IsTrimmedBy(r, drop)
    ensures |r| <= |s|
  {
    TrimEndBy(TrimStartBy(s, drop), drop)
  }

  /** Rust's `str::trim`. */
  function Trim(s: string): (r: string)
    ensures IsTrimmed(r)
  {
    TrimBy(s, Whitespace)
  }

  lemma TrimStartNoop(s: string, drop: set<char>)
    requires s == [] || s[0] !in drop
    ensures TrimStartBy(s, drop) == s
  {
  }

  lemma TrimEndNoop(s: string, drop: set<char>)
    requires s == [] || s[|s| - 1] !in drop
    ensures TrimEndBy(s, drop) == s
  {
  }

  /** A trimmed string is its own trim. */
  lemma TrimmedIsFixpoint(s: string, drop: set<char>)
    requires IsTrimmedBy(s, drop)
    ensures TrimBy(s, drop) == s
  {
  }

  /** A string without white space at either end is its own `trim`. */
  lemma TrimOfTrimmed(s: string)
    requires IsTrimmed(s)
    ensures Trim(s) == s
  {
    TrimmedIsFixpoint(s, Whitespace);
  }

  /** Dropped characters in front of `y` make no difference to the start-trim. */
  lemma {:induction false} TrimStartSkip(x: string, y: string, drop: set<char>)
    requires AllIn(x, drop)
    ensures TrimStartBy(x + y, drop) == TrimStartBy(y, drop)
    decreases |x|
  {
    if x != [] {
      assert (x + y)[0] == x[0] && x[0] in drop;
      assert (x + y)[1..] == x[1..] + y;
      assert AllIn(x[1..], drop) by {
        forall i | 0 <= i < |x[1..]| ensures x[1..][i] in drop { assert x[1..][i] == x[i + 1]; }
      }
      TrimStartSkip(x[1..], y, drop);
      assert TrimStartBy(x + y, drop) == TrimStartBy((x + y)[1..], drop);
    } else {
      assert x + y == y;
    }
  }

  /** Dropped characters after `y` make no difference to the end-trim. */
  lemma {:induction false} TrimEndSkip(y: string, x: string, drop: set<char>)
    requires AllIn(x, drop)
    ensures TrimEndBy(y + x, drop) == TrimEndBy(y, drop)
    decreases |x|
  {
    if x != [] {
      assert (y + x)[|y + x| - 1] == x[|x| - 1] && x[|x| - 1] in drop;
      assert (y + x)[..|y + x| - 1] == y + x[..|x| - 1];
      var z := x[..|x| - 1];
      assert AllIn(z, drop) by {
        forall i | 0 <= i < |z| ensures z[i] in drop { assert z[i] == x[i]; }
      }
      TrimEndSkip(y, x[..|x| - 1], drop);
      assert TrimEndBy(y + x, drop) == TrimEndBy((y + x)[..|y + x| - 1], drop);
    } else {
      assert y + x == y;
    }
  }

  /** A character that is not dropped survives trimming. */
  lemma KeptCharSurvivesTrim(s: string, c: char, drop: set<char>)
    requires c in s && c !in drop
    ensures c in TrimBy(s, drop)
  {
    var t := TrimStartBy(s, drop);
    TrimStartRemovesDropped(s, drop);
    var i :| 0 <= i < |s| && s[i] == c;
    var n := |s| - |t|;
    assert i >= n;
    assert t[i - n] == c;
    var u := TrimEndBy(t, drop);
    TrimEndRemovesDropped(t, drop);
    var k := i - n;
    assert k < |u|;
    assert u[k] == c;
  }

  /** Trimming strips dropped characters on both sides of a text that has none at its ends. */
  lemma TrimAround(x: string, m: string, y: string, drop: set<char>)
    requires AllIn(x, drop) && AllIn(y, drop) && IsTrimmedBy(m, drop)
    ensures TrimBy(x + m + y, drop) == m
  {
    assert x + m + y == x + (m + y);
    TrimStartSkip(x, m + y, drop);
    if m == [] {
      assert m + y == [] + y;
      TrimStartSkip(y, [], drop);
      assert y + [] == y;
    } else {
      TrimStartNoop(m + y, drop);
      TrimEndSkip(m, y, drop);
      TrimEndNoop(m, drop);
    }
  }

  /** Rust's `s.starts_with(prefix)`. */
  predicate StartsWith(s: string, prefix: string) {
    |prefix| <= |s| && s[..|prefix|] == prefix
  }

  /** Rust's `s.ends_with(suffix)`. */
  predicate EndsWith(s: string, suffix: string) {
    |suffix| <= |s| && s[|s| - |suffix|..] == suffix
  }

  /** Number of occurrences of `c` in `s`. */
  function Count(s: string, c: char): nat {
    multiset(s)[c]
  }

  /** Position of the first occurrence of `c` in `s`. */
  function IndexOf(s: string, c: char): (i: nat)
    requires c in s
    ensures i < |s| && s[i] == c && c !in s[..i]
  {
    if s[0] == c then 0 else 1 + IndexOf(s[1..], c)
  }

  /** Rust's `s.split_once(c)`: the text before and after the first `c`, if any. */
  function SplitOnce(s: string, c: char): (r: Option<(string, string)>)
    ensures r.None? <==> c !in s
    ensures r.Some? ==> s == r.value.0 + [c] + r.value.1 && c !in r.value.0
  {
    if c in s then
      var i := IndexOf(s, c);
      assert s == s[..i] + [c] + s[i + 1..];
      Some((s[..i], s[i + 1..]))
    else
      None
  }

  /** The separator-joined concatenation of a non-empty list of parts. */
  function Join(parts: seq<string>, c: char): string
    requires |parts| >= 1
  {
    if |parts| == 1 then parts[0] else parts[0] + [c] + Join(parts[1..], c)
  }

  /** Rust's `s.split(c)`: every segment between separators, empty ones included. */
  function Split(s: string, c: char): (parts: seq<string>)
    ensures |parts| == Count(s, c) + 1
    ensures forall i :: 0 <= i < |parts| ==> c !in parts[i]
    ensures Join(parts, c) == s
    decreases |s|
  {
    match SplitOnce(s, c)
    case None => [s]
    case Some((before, after)) =>
      CountAroundFirst(before, after, c);
      var rest := Split(after, c);
      assert ([before] + rest)[1..] == rest;
      [before] + rest
  }

  lemma CountAroundFirst(before: string, after: string, c: char)
    requires c !in before
    ensures Count(before + [c] + after, c) == Count(after, c) + 1
  {
    assert multiset(before + [c] + after) == multiset(before) + multiset([c]) + multiset(after);
  }

  /** Splitting a joined list gives the list back when no part holds the separator. */
  lemma {:induction false} SplitJoin(parts: seq<string>, c: char)
    requires |parts| >= 1
    requires forall i :: 0 <= i < |parts| ==> c !in parts[i]
    ensures Split(Join(parts, c), c) == parts
    decreases |parts|
  {
    if |parts| > 1 {
      var rest := Join(parts[1..], c);
      var s := parts[0] + [c] + rest;
      assert c !in parts[0];
      assert IndexOf(s, c) == |parts[0]| by {
        assert s[|parts[0]|] == c;
        assert s[..|parts[0]|] == parts[0];
        IndexOfFirst(s, c, |parts[0]|);
      }
      assert s[..|parts[0]|] == parts[0];
      assert s[|parts[0]| + 1..] == rest;
      SplitJoin(parts[1..], c);
    }
  }

  lemma IndexOfFirst(s: string, c: char, i: nat)
    requires i < |s| && s[i] == c && c !in s[..i]
    ensures IndexOf(s, c) == i
  {
  }

  function LowerChar(c: char): char {
    if 'A' <= c <= 'Z' then (c as int + 32) as char else c
  }

  /** `a` spells the lower-case word `w` in any ASCII case: `a.to_ascii_lowercase() == w`. */
  predicate EqualsIgnoringCase(a: string, w: string)
    decreases |a|
  {
    if a == [] then w == []
    else w != [] && LowerChar(a[0]) == w[0] && EqualsIgnoringCase(a[1..], w[1..])
  }

  lemma {:induction false} EqualsIgnoringCaseIndex(a: string, w: string)
    ensures EqualsIgnoringCase(a, w) <==> |a| == |w| && forall i :: 0 <= i < |a| ==> LowerChar(a[i]) == w[i]
    decreases |a|
  {
    if a != [] && w != [] {
      EqualsIgnoringCaseIndex(a[1..], w[1..]);
      assert forall i :: 0 < i < |a| ==> a[1..][i - 1] == a[i];
      assert forall i :: 0 < i < |w| ==> w[1..][i - 1] == w[i];
    }
  }

  /** A lower-case word matches itself with its first letter capitalised. */
  lemma CapitalizedMatches(a: string, w: string)
    requires |a| == |w| > 0 && LowerChar(a[0]) == w[0] && a[1..] == w[1..]
    requires forall i :: 0 <= i < |w| ==> LowerChar(w[i]) == w[i]
    ensures EqualsIgnoringCase(a, w)
  {
    assert forall i :: 0 < i < |a| ==> a[i] == a[1..][i - 1] == w[i];
    EqualsIgnoringCaseIndex(a, w);
  }

  /** No element of `s` occurs twice. */
  predicate NoDuplicates<T(==)>(s: seq<T>) {
    forall i, j :: 0 <= i < j < |s| ==> s[i] != s[j]
  }

  lemma NoDuplicatesSnoc<T>(s: seq<T>, x: T)
    ensures NoDuplicates(s + [x]) <==> NoDuplicates(s) && x !in s
  {
    assert forall i :: 0 <= i < |s| ==> (s + [x])[i] == s[i];
    if x in s {
      var i :| 0 <= i < |s| && s[i] == x;
      assert (s + [x])[i] == (s + [x])[|s|];
    }
  }

  datatype Option<+T> = None | Some(value: T)
}
