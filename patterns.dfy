/**
 * The four regular expressions of main.go, each written as a scanner:
 *
 *   VpiRegex        "/vpi?.+do=d.+"      (FindString: the whole match)
 *   BitrateRegex    bitrate: (\d* kb/s)    (FindStringSubmatch(...)[1])
 *   ResolutionRegex resolution: (\d*x\d*)  (FindStringSubmatch(...)[1])
 *   TypeRegex       type: (\w+)            (FindStringSubmatch(...)[1])
 *
 * For each pattern, `XAt(s, i)` is what the pattern yields when its match
 * starts at index `i` (None if no match starts there), `IsXMatch(s, i, c)`
 * says declaratively what a match at `i` with result `c` looks like, and
 * `FindX(s)` takes the leftmost start, as Go's regexp package does.
 */
module Patterns {
  import opened Strings

  const BitrateLabel := "bitrate: "
  const KbpsSuffix := " kb/s"
  const ResolutionLabel := "resolution: "
  const TypeLabel := "type: "
  const VpiOpen := "\"/vp"
  const DownloadParam := "do=d"

  // ---------------------------------------------------------------------
  // Leftmost search and prefix arithmetic
  // ---------------------------------------------------------------------

  /** The smallest start `j >= i` at which `at` yields a result. */
  function Locate(s: string, at: (string, nat) -> Option<string>, i: nat): (r: Option<nat>)
    requires i <= |s|
    ensures r.Some? ==> i <= r.value <= |s| && at(s, r.value).Some?
    decreases |s| - i
  {
    if at(s, i).Some? then Some(i)
    else if i == |s| then None
    else Locate(s, at, i + 1)
  }

  /** Locate finds the first start from `i` on, and finds none only when there is none up to |s|. */
  lemma {:induction false} LocateFirst(s: string, at: (string, nat) -> Option<string>, i: nat)
    requires i <= |s|
    ensures Locate(s, at, i).Some? ==> forall j: nat :: i <= j < Locate(s, at, i).value ==> at(s, j).None?
    ensures Locate(s, at, i).None? ==> forall j: nat :: i <= j <= |s| ==> at(s, j).None?
    decreases |s| - i
  {
    if at(s, i).None? && i < |s| {
      LocateFirst(s, at, i + 1);
    }
  }

  /** Go's leftmost-match rule, applied to a per-position matcher. */
  function Leftmost(s: string, at: (string, nat) -> Option<string>): Option<string> {
    match Locate(s, at, 0)
    case Some(i) => at(s, i)
    case None => None
  }

  lemma PrefixConcat(s: string, i: nat, a: string, b: string)
    ensures PrefixAt(s, i, a + b) <==> PrefixAt(s, i, a) && PrefixAt(s, i + |a|, b)
  {
    if PrefixAt(s, i, a) && PrefixAt(s, i + |a|, b) {
      assert s[i..i + |a + b|] == s[i..i + |a|] + s[i + |a|..i + |a| + |b|];
    }
    if PrefixAt(s, i, a + b) {
      assert s[i..i + |a|] == (a + b)[..|a|];
      assert s[i + |a|..i + |a| + |b|] == (a + b)[|a|..];
    }
  }

  /** A run of `p`-characters of length `m` makes the maximal run at least that long. */
  lemma RunLengthCovers(s: string, i: nat, p: char -> bool, m: nat)
    requires i + m <= |s|
    requires All(s[i..i + m], p)
    ensures RunLength(s, i, p) >= m
  {
  }

  // ---------------------------------------------------------------------
  // bitrate: (\d* kb/s)
  // ---------------------------------------------------------------------

  /** A capture of BitrateRegex: a possibly empty digit run, then " kb/s". */
  predicate IsBitrateValue(c: string) {
    |c| >= |KbpsSuffix| && All(c[..|c| - |KbpsSuffix|], IsDigit) && c[|c| - |KbpsSuffix|..] == KbpsSuffix
  }

  predicate IsBitrateMatch(s: string, i: nat, c: string) {
    PrefixAt(s, i, BitrateLabel + c) && IsBitrateValue(c)
  }

  function BitrateAt(s: string, i: nat): Option<string> {
    if PrefixAt(s, i, BitrateLabel) then BitrateFrom(s, i + |BitrateLabel|) else None
  }

  /** The capture of \d* kb/s starting at `p`: the greedy digit run, then the suffix. */
  function BitrateFrom(s: string, p: nat): Option<string>
    requires p <= |s|
  {
    var n := RunLength(s, p, IsDigit);
    if PrefixAt(s, p + n, KbpsSuffix) then Some(s[p..p + n + |KbpsSuffix|]) else None
  }

  /** What BitrateFrom captures is a bitrate value sitting at `p`. */
  lemma BitrateFromSound(s: string, p: nat)
    requires p <= |s| && BitrateFrom(s, p).Some?
    ensures PrefixAt(s, p, BitrateFrom(s, p).value) && IsBitrateValue(BitrateFrom(s, p).value)
  {
    var c := BitrateFrom(s, p).value;
    var n := RunLength(s, p, IsDigit);
    RunLengthAll(s, p, IsDigit);
    assert c[..n] == s[p..p + n];
    assert c[n..] == s[p + n..p + n + |KbpsSuffix|];
  }

  /** Any bitrate value at `p` is what BitrateFrom captures: the digit run cannot reach into " kb/s". */
  lemma BitrateFromComplete(s: string, p: nat, c: string)
    requires PrefixAt(s, p, c) && IsBitrateValue(c)
    ensures BitrateFrom(s, p) == Some(c)
  {
    var d := |c| - |KbpsSuffix|;
    PrefixSlice(s, p, c, 0, d);
    PrefixSlice(s, p, c, d, |c|);
    assert c[d] == c[d..][0] == ' ';
    RunLengthUnique(s, p, IsDigit, d);
  }

  /** BitrateAt finds a capture at `i` exactly when the pattern matches there. */
  lemma BitrateAtSpec(s: string, i: nat, c: string)
    ensures BitrateAt(s, i) == Some(c) <==> IsBitrateMatch(s, i, c)
  {
    PrefixConcat(s, i, BitrateLabel, c);
    if PrefixAt(s, i, BitrateLabel) {
      var p := i + |BitrateLabel|;
      if BitrateFrom(s, p) == Some(c) { BitrateFromSound(s, p); }
      if IsBitrateMatch(s, i, c) { BitrateFromComplete(s, p, c); }
    }
  }

  function FindBitrate(s: string): Option<string> {
    Leftmost(s, BitrateAt)
  }

  /**
   * FindBitrate yields the capture of the leftmost match, and fails only
   * when no position matches.
   */
  lemma FindBitrateLeftmost(s: string)
    ensures FindBitrate(s).None? <==> forall i: nat, c :: !IsBitrateMatch(s, i, c)
    ensures FindBitrate(s).Some? ==>
      exists i: nat :: IsBitrateMatch(s, i, FindBitrate(s).value) &&
        forall j: nat, c :: j < i ==> !IsBitrateMatch(s, j, c)
  {
    var r := Locate(s, BitrateAt, 0);
    LocateFirst(s, BitrateAt, 0);
    if r.Some? {
      BitrateAtSpec(s, r.value, FindBitrate(s).value);
      forall j: nat, c | j < r.value ensures !IsBitrateMatch(s, j, c) {
        BitrateAtSpec(s, j, c);
      }
    } else {
      forall i: nat, c ensures !IsBitrateMatch(s, i, c) {
        if i > |s| { assert !PrefixAt(s, i, BitrateLabel + c); } else { BitrateAtSpec(s, i, c); }
      }
    }
  }

  // ---------------------------------------------------------------------
  // resolution: (\d*x\d*)
  // ---------------------------------------------------------------------

  /** `c` is the digit run c[..k], an 'x' at k, and the digit run c[k + 1..]. */
  predicate IsResolutionSplit(c: string, k: nat) {
    k < |c| && c[k] == 'x' && All(c[..k], IsDigit) && All(c[k + 1..], IsDigit)
  }

  /** A capture of ResolutionRegex: digits, one 'x', digits (either run may be empty). */
  predicate IsResolutionValue(c: string) {
    exists k: nat | k < |c| :: IsResolutionSplit(c, k)
  }

  /** A match at `i` with capture `c`; the second digit run is maximal (greedy). */
  predicate IsResolutionMatch(s: string, i: nat, c: string) {
    PrefixAt(s, i, ResolutionLabel + c) && IsResolutionValue(c) &&
    var e := i + |ResolutionLabel| + |c|;
    e == |s| || !IsDigit(s[e])
  }

  function ResolutionAt(s: string, i: nat): Option<string> {
    if PrefixAt(s, i, ResolutionLabel) then ResolutionFrom(s, i + |ResolutionLabel|) else None
  }

  /** The capture of \d*x\d* starting at `p`: the greedy digit run, an 'x', the greedy digit run. */
  function ResolutionFrom(s: string, p: nat): Option<string>
    requires p <= |s|
  {
    var w := RunLength(s, p, IsDigit);
    if p + w < |s| && s[p + w] == 'x' then
      var h := RunLength(s, p + w + 1, IsDigit);
      Some(s[p..p + w + 1 + h])
    else None
  }

  /** What ResolutionFrom captures is a resolution value sitting at `p`, followed by a non-digit or the end. */
  lemma ResolutionFromSound(s: string, p: nat)
    requires p <= |s| && ResolutionFrom(s, p).Some?
    ensures var c := ResolutionFrom(s, p).value;
      PrefixAt(s, p, c) && IsResolutionValue(c) && (p + |c| == |s| || !IsDigit(s[p + |c|]))
  {
    var c := ResolutionFrom(s, p).value;
    var w := RunLength(s, p, IsDigit);
    var h := RunLength(s, p + w + 1, IsDigit);
    RunLengthAll(s, p, IsDigit);
    RunLengthAll(s, p + w + 1, IsDigit);
    assert c[..w] == s[p..p + w];
    assert c[w + 1..] == s[p + w + 1..p + w + 1 + h];
    assert IsResolutionSplit(c, w);
  }

  /** Where `c` sits at `p`, the digit run RunLength measures from `p` is the one before c's 'x'. */
  lemma ResolutionFirstRun(s: string, p: nat, c: string, k: nat)
    requires PrefixAt(s, p, c) && IsResolutionSplit(c, k)
    ensures p + k < |s| && s[p + k] == 'x'
    ensures RunLength(s, p, IsDigit) == k
  {
    PrefixSlice(s, p, c, 0, k);
    PrefixSlice(s, p, c, k, |c|);
    assert s[p + k] == c[k] by { assert s[p + k..p + |c|][0] == c[k..][0]; }
    RunLengthUnique(s, p, IsDigit, k);
  }

  /** ... and, when no digit follows `c`, the run after the 'x' is the rest of `c`. */
  lemma ResolutionSecondRun(s: string, p: nat, c: string, k: nat)
    requires PrefixAt(s, p, c) && IsResolutionSplit(c, k)
    requires p + |c| == |s| || !IsDigit(s[p + |c|])
    ensures RunLength(s, p + k + 1, IsDigit) == |c| - k - 1
  {
    PrefixSlice(s, p, c, k + 1, |c|);
    RunLengthUnique(s, p + k + 1, IsDigit, |c| - k - 1);
  }

  /** Any resolution value at `p` that no digit follows is what ResolutionFrom captures. */
  lemma ResolutionFromComplete(s: string, p: nat, c: string)
    requires PrefixAt(s, p, c) && IsResolutionValue(c)
    requires p + |c| == |s| || !IsDigit(s[p + |c|])
    ensures ResolutionFrom(s, p) == Some(c)
  {
    var k: nat :| k < |c| && IsResolutionSplit(c, k);
    ResolutionFirstRun(s, p, c, k);
    ResolutionSecondRun(s, p, c, k);
    ResolutionFromRuns(s, p, k, |c|);
  }

  /** ResolutionFrom computed from the lengths of its two runs. */
  lemma ResolutionFromRuns(s: string, p: nat, k: nat, n: nat)
    requires p + n <= |s| && k < n
    requires s[p + k] == 'x' && RunLength(s, p, IsDigit) == k
    requires RunLength(s, p + k + 1, IsDigit) == n - k - 1
    ensures ResolutionFrom(s, p) == Some(s[p..p + n])
  {
  }

  lemma ResolutionAtSpec(s: string, i: nat, c: string)
    ensures ResolutionAt(s, i) == Some(c) <==> IsResolutionMatch(s, i, c)
  {
    PrefixConcat(s, i, ResolutionLabel, c);
    if PrefixAt(s, i, ResolutionLabel) {
      var p := i + |ResolutionLabel|;
      if ResolutionFrom(s, p) == Some(c) { ResolutionFromSound(s, p); }
      if IsResolutionMatch(s, i, c) { ResolutionFromComplete(s, p, c); }
    }
  }

  function FindResolution(s: string): Option<string> {
    Leftmost(s, ResolutionAt)
  }

  lemma FindResolutionLeftmost(s: string)
    ensures FindResolution(s).None? <==> forall i: nat, c :: !IsResolutionMatch(s, i, c)
    ensures FindResolution(s).Some? ==>
      exists i: nat :: IsResolutionMatch(s, i, FindResolution(s).value) &&
        forall j: nat, c :: j < i ==> !IsResolutionMatch(s, j, c)
  {
    var r := Locate(s, ResolutionAt, 0);
    LocateFirst(s, ResolutionAt, 0);
    if r.Some? {
      ResolutionAtSpec(s, r.value, FindResolution(s).value);
      forall j: nat, c | j < r.value ensures !IsResolutionMatch(s, j, c) {
        ResolutionAtSpec(s, j, c);
      }
    } else {
      forall i: nat, c ensures !IsResolutionMatch(s, i, c) {
        if i > |s| { assert !PrefixAt(s, i, ResolutionLabel + c); } else { ResolutionAtSpec(s, i, c); }
      }
    }
  }

  // ---------------------------------------------------------------------
  // type: (\w+)
  // ---------------------------------------------------------------------

  /** A match at `i`: a non-empty, maximal run of word characters after "type: ". */
  predicate IsTypeMatch(s: string, i: nat, c: string) {
    PrefixAt(s, i, TypeLabel + c) && |c| > 0 && All(c, IsWordChar) &&
    var e := i + |TypeLabel| + |c|;
    e == |s| || !IsWordChar(s[e])
  }

  function TypeAt(s: string, i: nat): Option<string> {
    if !PrefixAt(s, i, TypeLabel) then None
    else
      var p := i + |TypeLabel|;
      var n := RunLength(s, p, IsWordChar);
      if n > 0 then Some(s[p..p + n]) else None
  }

  lemma TypeAtSpec(s: string, i: nat, c: string)
    ensures TypeAt(s, i) == Some(c) <==> IsTypeMatch(s, i, c)
  {
    var p := i + |TypeLabel|;
    PrefixConcat(s, i, TypeLabel, c);
    if PrefixAt(s, i, TypeLabel) { RunLengthAll(s, p, IsWordChar); }
    if IsTypeMatch(s, i, c) {
      assert s[p..p + |c|] == c;
      RunLengthUnique(s, p, IsWordChar, |c|);
    }
  }

  function FindType(s: string): Option<string> {
    Leftmost(s, TypeAt)
  }

  lemma FindTypeLeftmost(s: string)
    ensures FindType(s).None? <==> forall i: nat, c :: !IsTypeMatch(s, i, c)
    ensures FindType(s).Some? ==>
      exists i: nat :: IsTypeMatch(s, i, FindType(s).value) &&
        forall j: nat, c :: j < i ==> !IsTypeMatch(s, j, c)
  {
    var r := Locate(s, TypeAt, 0);
    LocateFirst(s, TypeAt, 0);
    if r.Some? {
      TypeAtSpec(s, r.value, FindType(s).value);
      forall j: nat, c | j < r.value ensures !IsTypeMatch(s, j, c) {
        TypeAtSpec(s, j, c);
      }
    } else {
      forall i: nat, c ensures !IsTypeMatch(s, i, c) {
        if i > |s| { assert !PrefixAt(s, i, TypeLabel + c); } else { TypeAtSpec(s, i, c); }
      }
    }
  }

  // ---------------------------------------------------------------------
  // "/vpi?.+do=d.+"
  // ---------------------------------------------------------------------

  /**
   * A string the pattern matches: `"/vp`, a non-empty run (which absorbs the
   * optional `i`), `do=d`, a non-empty run, and a closing quote, all on one
   * line. So `do=d` starts at index 5 or later and ends at least one
   * character before the closing quote.
   */
  ghost predicate IsVpiShape(c: string) {
    |c| >= |VpiOpen| && c[..|VpiOpen|] == VpiOpen && c[|c| - 1] == '"' &&
    All(c, IsLineChar) && OccursWithin(c, DownloadParam, 5, |c| - 2)
  }

  ghost predicate IsVpiMatch(s: string, i: nat, c: string) {
    PrefixAt(s, i, c) && IsVpiShape(c)
  }

  /**
   * What FindString reports when the match starts at `i`. Both `.+` are
   * greedy, so Go's leftmost-first choice ends the match at the last quote
   * of the line, provided a `do=d` fits before it.
   */
  function VpiAt(s: string, i: nat): Option<string> {
    if !PrefixAt(s, i, VpiOpen) then None
    else
      var eol := i + RunLength(s, i, IsLineChar);
      RunLengthCovers(s, i, IsLineChar, |VpiOpen|);
      match LastIndex(s, i + |VpiOpen|, eol, IsQuote)
      case None => None
      case Some(q) =>
        if HasWithin(s, DownloadParam, i + 5, q - 1) then Some(s[i..q + 1]) else None
  }

  /** A piece of `c` is the matching piece of any `s` that contains `c` at `p`. */
  lemma PrefixSlice(s: string, p: nat, c: string, a: nat, b: nat)
    requires PrefixAt(s, p, c)
    requires a <= b <= |c|
    ensures s[p + a..p + b] == c[a..b]
  {
    SliceOfSlice(s, p, p + |c|, a, b);
  }

  lemma SliceOfSlice(s: string, i: nat, j: nat, a: nat, b: nat)
    requires i <= j <= |s|
    requires a <= b <= j - i
    ensures s[i..j][a..b] == s[i + a..i + b]
  {
    forall k | 0 <= k < b - a ensures s[i..j][a..b][k] == s[i + a..i + b][k] {
      assert s[i..j][a..b][k] == s[i..j][a + k] == s[i + a + k];
    }
  }

  /** Indices inside a piece of `s` are indices of `s`, shifted. */
  lemma OccursShift(s: string, i: nat, c: string, t: string, lo: nat, hi: nat)
    requires PrefixAt(s, i, c)
    requires hi <= |c|
    ensures OccursWithin(c, t, lo, hi) <==> OccursWithin(s, t, i + lo, i + hi)
  {
    if OccursWithin(c, t, lo, hi) {
      var k: nat :| lo <= k && k + |t| <= hi && PrefixAt(c, k, t);
      PieceAt(s, i, c, t, k);
    }
    if OccursWithin(s, t, i + lo, i + hi) {
      var k: nat :| i + lo <= k && k + |t| <= i + hi && PrefixAt(s, k, t);
      PieceAt(s, i, c, t, k - i);
    }
  }

  /** `t` sits at `k` in the piece `c` of `s` exactly when it sits at `i + k` in `s`. */
  lemma PieceAt(s: string, i: nat, c: string, t: string, k: nat)
    requires PrefixAt(s, i, c)
    requires k + |t| <= |c|
    ensures PrefixAt(c, k, t) <==> PrefixAt(s, i + k, t)
  {
    PrefixSlice(s, i, c, k, k + |t|);
  }

  /** What VpiAt reports is a match of the pattern. */
  lemma VpiAtSound(s: string, i: nat)
    requires VpiAt(s, i).Some?
    ensures IsVpiMatch(s, i, VpiAt(s, i).value)
  {
    var eol := i + RunLength(s, i, IsLineChar);
    RunLengthAll(s, i, IsLineChar);
    var q := LastIndex(s, i + |VpiOpen|, eol, IsQuote).value;
    var c := s[i..q + 1];
    assert c[..|VpiOpen|] == s[i..i + |VpiOpen|];
    assert All(c, IsLineChar) by {
      forall k | 0 <= k < |c| ensures IsLineChar(c[k]) {
        assert c[k] == s[i..eol][k];
      }
    }
    OccursShift(s, i, c, DownloadParam, 5, |c| - 2);
  }

  /** Every match at `i` ends no later than the one VpiAt reports. */
  lemma VpiAtLongest(s: string, i: nat, c: string)
    requires IsVpiMatch(s, i, c)
    ensures VpiAt(s, i).Some? && |c| <= |VpiAt(s, i).value|
  {
    assert s[i..i + |c|] == c;
    assert s[i..i + |VpiOpen|] == c[..|VpiOpen|];
    var n := RunLength(s, i, IsLineChar);
    RunLengthCovers(s, i, IsLineChar, |c|);
    var e := i + |c| - 1;
    assert s[e] == c[|c| - 1];
    OccursShift(s, i, c, DownloadParam, 5, |c| - 2);
    var q := LastIndex(s, i + |VpiOpen|, i + n, IsQuote);
    assert q.Some? && e <= q.value;
    var q' := q.value;
    assert OccursWithin(s, DownloadParam, i + 5, q' - 1) by {
      var k: nat :| i + 5 <= k && k + |DownloadParam| <= e - 1 && PrefixAt(s, k, DownloadParam);
    }
  }

  /** The leftmost-first match at `i` is the longest one that starts there. */
  ghost predicate IsLongestVpiMatch(s: string, i: nat, c: string) {
    IsVpiMatch(s, i, c) && forall c' :: IsVpiMatch(s, i, c') ==> |c'| <= |c|
  }

  lemma VpiAtSpec(s: string, i: nat, c: string)
    ensures VpiAt(s, i) == Some(c) <==> IsLongestVpiMatch(s, i, c)
  {
    if VpiAt(s, i) == Some(c) {
      VpiAtSound(s, i);
      forall c' | IsVpiMatch(s, i, c') ensures |c'| <= |c| {
        VpiAtLongest(s, i, c');
      }
    }
    if IsLongestVpiMatch(s, i, c) {
      VpiAtLongest(s, i, c);
      var c0 := VpiAt(s, i).value;
      VpiAtSound(s, i);
      assert |c0| == |c|;
      assert c == s[i..i + |c|] == c0;
    }
  }

  function FindVpi(s: string): Option<string> {
    Leftmost(s, VpiAt)
  }

  /**
   * FindVpi yields the longest match at the leftmost position where the
   * pattern matches, and fails (Go's empty string) only when it matches nowhere.
   */
  lemma FindVpiLeftmost(s: string)
    ensures FindVpi(s).None? <==> forall i: nat, c :: !IsVpiMatch(s, i, c)
    ensures FindVpi(s).Some? ==>
      exists i: nat :: IsLongestVpiMatch(s, i, FindVpi(s).value) &&
        forall j: nat, c :: j < i ==> !IsVpiMatch(s, j, c)
  {
    forall i: nat, c | IsVpiMatch(s, i, c) ensures VpiAt(s, i).Some? {
      VpiAtLongest(s, i, c);
    }
    var r := Locate(s, VpiAt, 0);
    LocateFirst(s, VpiAt, 0);
    if r.Some? {
      VpiAtSpec(s, r.value, FindVpi(s).value);
    } else {
      forall i: nat, c ensures !IsVpiMatch(s, i, c) {
        if i > |s| { assert !PrefixAt(s, i, c); }
      }
    }
  }

  /**
   * What FindVpi reports has the pattern's shape; in particular it is never
   * empty, so Go's `len(vpiMatch) > 0` test is exactly "found".
   */
  lemma FindVpiShape(s: string)
    ensures FindVpi(s).Some? ==> IsVpiShape(FindVpi(s).value) && |FindVpi(s).value| >= |VpiOpen|
  {
    if FindVpi(s).Some? {
      var i := Locate(s, VpiAt, 0).value;
      VpiAtSound(s, i);
    }
  }
}
