/**
 * String helpers shared by the scraper model: character classes of Go's
 * regexp and unicode packages, prefix tests, maximal runs, last-index
 * search and trimming (strings.Trim / strings.TrimSpace).
 *
 * Go strings are byte sequences; here a string is a sequence of characters,
 * which agrees with Go on the ASCII text all of the patterns look at.
 */
module Strings {

  datatype Option<T> = None | Some(value: T)

  /** `\d` in Go's regexp syntax: ASCII digits only. */
  predicate IsDigit(c: char) { '0' <= c <= '9' }

  /** `\w` in Go's regexp syntax: [0-9A-Za-z_]. */
  predicate IsWordChar(c: char) {
    IsDigit(c) || 'a' <= c <= 'z' || 'A' <= c <= 'Z' || c == '_'
  }

  /** `.` in Go's regexp syntax (without the s flag) matches anything but a newline. */
  predicate IsLineChar(c: char) { c != '\n' }

  predicate IsQuote(c: char) { c == '"' }

  /** Go's unicode.IsSpace, the test strings.TrimSpace strips by. */
  predicate IsSpace(c: char) {
    c == '\t' || c == '\n' || c == '\U{B}' || c == '\U{C}' || c == '\r' || c == ' ' ||
    c == '\U{85}' || c == '\U{A0}' || c == '\U{1680}' ||
    ('\U{2000}' <= c <= '\U{200A}') ||
    c == '\U{2028}' || c == '\U{2029}' || c == '\U{202F}' || c == '\U{205F}' || c == '\U{3000}'
  }

  /** Every character of `s` satisfies `p`. */
  predicate All(s: string, p: char -> bool) {
    forall k :: 0 <= k < |s| ==> p(s[k])
  }

  /** `t` occurs in `s` starting at index `i`. */
  predicate PrefixAt(s: string, i: nat, t: string) {
    i + |t| <= |s| && s[i..i + |t|] == t
  }

  /**
   * Length of the maximal run of characters satisfying `p` that starts at
   * `i`: what a greedy `p*` consumes there.
   */
  function RunLength(s: string, i: nat, p: char -> bool): (n: nat)
    requires i <= |s|
    ensures i + n <= |s|
    ensures i + n == |s| || !p(s[i + n])
    decreases |s| - i
  {
    if i == |s| || !p(s[i]) then 0 else 1 + RunLength(s, i + 1, p)
  }

  /** Every character of the run satisfies `p`. */
  lemma {:induction false} RunLengthAll(s: string, i: nat, p: char -> bool)
    requires i <= |s|
    ensures All(s[i..i + RunLength(s, i, p)], p)
    decreases |s| - i
  {
    if i < |s| && p(s[i]) {
      var m := RunLength(s, i + 1, p);
      RunLengthAll(s, i + 1, p);
      var run, rest := s[i..i + 1 + m], s[i + 1..i + 1 + m];
      assert All(rest, p);
      forall k | 0 <= k < |run| ensures p(run[k]) {
        if k == 0 {
          assert run[k] == s[i];
        } else {
          assert run[k] == rest[k - 1];
        }
      }
    }
  }

  /** A run is maximal in exactly one way: any maximal run has RunLength's length. */
  lemma {:induction false} RunLengthUnique(s: string, i: nat, p: char -> bool, n: nat)
    requires i + n <= |s|
    requires All(s[i..i + n], p)
    requires i + n == |s| || !p(s[i + n])
    ensures RunLength(s, i, p) == n
    decreases n
  {
    if n > 0 {
      assert p(s[i..i + n][0]);
      assert s[i + 1..i + 1 + (n - 1)] == s[i..i + n][1..];
      RunLengthUnique(s, i + 1, p, n - 1);
    }
  }

  /** The largest index `q` in [lo, hi) with `p(s[q])`, if there is one. */
  function LastIndex(s: string, lo: nat, hi: nat, p: char -> bool): (r: Option<nat>)
    requires lo <= hi <= |s|
    ensures r.Some? ==> lo <= r.value < hi && p(s[r.value])
    ensures r.Some? ==> forall k :: r.value < k < hi ==> !p(s[k])
    ensures r.None? ==> forall k :: lo <= k < hi ==> !p(s[k])
    decreases hi - lo
  {
    if lo == hi then None
    else if p(s[hi - 1]) then Some(hi - 1)
    else LastIndex(s, lo, hi - 1, p)
  }

  /** Some `t` starts at an index `k` with lo <= k and k + |t| <= hi. */
  ghost predicate OccursWithin(s: string, t: string, lo: nat, hi: nat) {
    exists k: nat :: lo <= k && k + |t| <= hi && PrefixAt(s, k, t)
  }

  /** Decides OccursWithin by scanning the start positions from `lo`. */
  function HasWithin(s: string, t: string, lo: nat, hi: nat): (b: bool)
    requires hi <= |s|
    ensures b <==> OccursWithin(s, t, lo, hi)
    decreases hi - lo
  {
    if lo + |t| > hi then
      false
    else if PrefixAt(s, lo, t) then
      true
    else
      var b := HasWithin(s, t, lo + 1, hi);
      assert OccursWithin(s, t, lo, hi) ==> OccursWithin(s, t, lo + 1, hi) by {
        if OccursWithin(s, t, lo, hi) {
          var k: nat :| lo <= k && k + |t| <= hi && PrefixAt(s, k, t);
          assert k != lo;
        }
      }
      b
  }

  /** strings.TrimLeftFunc: drop the leading characters satisfying `p`. */
  function TrimLeft(s: string, p: char -> bool): (r: string)
    ensures |r| <= |s|
    decreases |s|
  {
    if s != [] && p(s[0]) then TrimLeft(s[1..], p) else s
  }

  /**
   * TrimLeft keeps a suffix of `s` that does not start with a `p`-character,
   * and what it drops satisfies `p`.
   */
  lemma {:induction false} TrimLeftSpec(s: string, p: char -> bool)
    ensures var r := TrimLeft(s, p);
      && r == s[|s| - |r|..]
      && (r == [] || !p(r[0]))
      && All(s[..|s| - |r|], p)
    decreases |s|
  {
    if s != [] && p(s[0]) {
      var r := TrimLeft(s[1..], p);
      TrimLeftSpec(s[1..], p);
      assert s[..|s| - |r|] == [s[0]] + s[1..][..|s| - 1 - |r|];
    }
  }

  /** strings.TrimRightFunc: drop the trailing characters satisfying `p`. */
  function TrimRight(s: string, p: char -> bool): (r: string)
    ensures |r| <= |s|
    decreases |s|
  {
    if s != [] && p(s[|s| - 1]) then TrimRight(s[..|s| - 1], p) else s
  }

  /**
   * TrimRight keeps a prefix of `s` that does not end with a `p`-character,
   * and what it drops satisfies `p`.
   */
  lemma {:induction false} TrimRightSpec(s: string, p: char -> bool)
    ensures var r := TrimRight(s, p);
      && r == s[..|r|]
      && (r == [] || !p(r[|r| - 1]))
      && All(s[|r|..], p)
    decreases |s|
  {
    if s != [] && p(s[|s| - 1]) {
      var r := TrimRight(s[..|s| - 1], p);
      TrimRightSpec(s[..|s| - 1], p);
      assert s[|r|..] == s[..|s| - 1][|r|..] + [s[|s| - 1]];
    }
  }

  /**
   * Go's strings.TrimFunc, which is TrimRightFunc(TrimLeftFunc(s, p), p):
   * drop every leading and every trailing character satisfying `p`.
   * strings.Trim(s, "\"") is Trim(s, IsQuote) and strings.TrimSpace(s) is
   * Trim(s, IsSpace).
   */
  function Trim(s: string, p: char -> bool): (r: string)
    ensures |r| <= |s|
    ensures r == [] || (!p(r[0]) && !p(r[|r| - 1]))
    ensures TrimmedFrom(s, r, p)
  {
    var l := TrimLeft(s, p);
    var r := TrimRight(l, p);
    TrimLeftSpec(s, p);
    TrimRightSpec(l, p);
    assert TrimmedAt(s, r, p, |s| - |l|) by {
      assert s[|s| - |l| + |r|..] == l[|r|..];
    }
    r
  }

  /** `r` is `s` with a prefix and a suffix of `p`-characters cut off, at index `a`. */
  predicate TrimmedAt(s: string, r: string, p: char -> bool, a: nat) {
    a + |r| <= |s| && s[a..a + |r|] == r && All(s[..a], p) && All(s[a + |r|..], p)
  }

  ghost predicate TrimmedFrom(s: string, r: string, p: char -> bool) {
    exists a: nat :: TrimmedAt(s, r, p, a)
  }

  /** A leading run of `p`-characters that stops at a non-`p` one is what TrimLeft drops. */
  lemma {:induction false} TrimLeftUnique(s: string, p: char -> bool, a: nat)
    requires a <= |s|
    requires All(s[..a], p)
    requires a == |s| || !p(s[a])
    ensures TrimLeft(s, p) == s[a..]
    decreases a
  {
    if a > 0 {
      assert p(s[..a][0]);
      assert s[1..][..a - 1] == s[..a][1..];
      TrimLeftUnique(s[1..], p, a - 1);
      assert s[1..][a - 1..] == s[a..];
    } else if s != [] {
      assert s[0] == s[a];
    }
  }

  /** A trailing run of `p`-characters after a non-`p` one is what TrimRight drops. */
  lemma {:induction false} TrimRightUnique(s: string, p: char -> bool, n: nat)
    requires n <= |s|
    requires All(s[n..], p)
    requires n == 0 || !p(s[n - 1])
    ensures TrimRight(s, p) == s[..n]
    decreases |s| - n
  {
    if n < |s| {
      var s' := s[..|s| - 1];
      assert s[n..][|s| - 1 - n] == s[|s| - 1];
      assert s'[n..] == s[n..][..|s| - 1 - n];
      TrimRightUnique(s', p, n);
      assert s'[..n] == s[..n];
    } else if s != [] {
      assert s[|s| - 1] == s[n - 1];
    }
  }

  /**
   * Trim's result is the ONLY slice of `s` that has `p`-characters around it
   * and none at its own ends.
   */
  lemma TrimUnique(s: string, p: char -> bool, a: nat, r: string)
    requires TrimmedAt(s, r, p, a)
    requires r == [] || (!p(r[0]) && !p(r[|r| - 1]))
    ensures Trim(s, p) == r
  {
    if r == [] {
      assert All(s[..|s|], p) by {
        forall k | 0 <= k < |s| ensures p(s[k]) {
          if k < a { assert s[..a][k] == s[k]; } else { assert s[a..][k - a] == s[k]; }
        }
      }
      TrimLeftUnique(s, p, |s|);
    } else {
      assert s[a] == r[0];
      TrimLeftUnique(s, p, a);
      var l := s[a..];
      assert l[|r|..] == s[a + |r|..];
      assert l[|r| - 1] == r[|r| - 1];
      TrimRightUnique(l, p, |r|);
    }
  }
}
