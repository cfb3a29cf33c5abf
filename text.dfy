/** Character classes and the string primitives the script applies to file names
    and column headers: `strip`, `lower` and the regular-expression class `\w`. */
module Text {

  /** A member of `\w`: an ASCII letter, digit or underscore. */
  predicate IsWordChar(c: char)
  {
    'a' <= c <= 'z' || 'A' <= c <= 'Z' || '0' <= c <= '9' || c == '_'
  }

  predicate IsUpper(c: char)
  {
    'A' <= c <= 'Z'
  }

  /** A character `str.strip()` removes: space, tab, line feed, vertical tab,
      form feed, carriage return and the four information separators. */
  predicate IsSpace(c: char)
  {
    c == ' ' || 9 <= c as int <= 13 || 28 <= c as int <= 31
  }

  function ToLowerChar(c: char): char
  {
    if IsUpper(c) then (c as int + 32) as char else c
  }

  /** `str.lower()` on ASCII: upper-case letters become lower-case, nothing else changes. */
  function ToLower(s: string): (r: string)
    ensures |r| == |s|
    ensures forall i :: 0 <= i < |s| ==> !IsUpper(r[i])
    ensures forall i :: 0 <= i < |s| ==> (IsWordChar(r[i]) <==> IsWordChar(s[i]))
    ensures forall i :: 0 <= i < |s| && !IsUpper(s[i]) ==> r[i] == s[i]
    ensures forall i :: 0 <= i < |s| && IsUpper(s[i]) ==> r[i] as int == s[i] as int + 32
  {
    seq(|s|, i requires 0 <= i < |s| => ToLowerChar(s[i]))
  }

  /** Drops the leading characters `drop` accepts: the result is the longest suffix
      of `s` that does not start with such a character. */
  function TrimStart(s: string, drop: char -> bool): (r: string)
    ensures |r| <= |s| && r == s[|s| - |r|..]
    ensures forall i :: 0 <= i < |s| - |r| ==> drop(s[i])
    ensures r == [] || !drop(r[0])
    decreases |s|
  {
    if s != [] && drop(s[0]) then TrimStart(s[1..], drop) else s
  }

  /** Drops the trailing characters `drop` accepts: the result is the longest prefix
      of `s` that does not end with such a character. */
  function TrimEnd(s: string, drop: char -> bool): (r: string)
    ensures |r| <= |s| && r == s[..|r|]
    ensures forall i :: |r| <= i < |s| ==> drop(s[i])
    ensures r == [] || !drop(r[|r| - 1])
    decreases |s|
  {
    if s != [] && drop(s[|s| - 1]) then TrimEnd(s[..|s| - 1], drop) else s
  }

  /** `str.strip(chars)`: the slice `s[lo..hi]` left once the characters `drop`
      accepts are removed from both ends. */
  function Strip(s: string, drop: char -> bool): (r: string)
    ensures r == [] || (!drop(r[0]) && !drop(r[|r| - 1]))
    ensures exists lo, hi :: Trims(s, drop, lo, hi) && r == s[lo..hi]
  {
    var front := TrimStart(s, drop);
    var r := TrimEnd(front, drop);
    var lo := |s| - |front|;
    assert Trims(s, drop, lo, lo + |r|) && r == s[lo..lo + |r|];
    r
  }

  /** Everything before `lo` and from `hi` on is a character `drop` accepts. */
  ghost predicate Trims(s: string, drop: char -> bool, lo: int, hi: int)
  {
    && 0 <= lo <= hi <= |s|
    && (forall i :: 0 <= i < lo ==> drop(s[i]))
    && (forall i :: hi <= i < |s| ==> drop(s[i]))
  }

  /** A string is its three slices at `lo` and `hi` put back together. */
  lemma SliceSplit(s: string, lo: int, hi: int)
    requires 0 <= lo <= hi <= |s|
    ensures s == s[..lo] + s[lo..hi] + s[hi..]
  {
    assert s == s[..lo] + s[lo..];
    assert s[lo..] == s[lo..hi] + s[hi..];
  }

  /** The characters outside `s[lo..hi]`, when `drop` accepts them all. */
  lemma TrimsSplit(s: string, drop: char -> bool, lo: int, hi: int) returns (before: string, after: string)
    requires Trims(s, drop, lo, hi)
    ensures s == before + s[lo..hi] + after
    ensures forall i :: 0 <= i < |before| ==> drop(before[i])
    ensures forall i :: 0 <= i < |after| ==> drop(after[i])
  {
    before, after := s[..lo], s[hi..];
    SliceSplit(s, lo, hi);
    forall i | 0 <= i < |before| ensures drop(before[i]) {
      assert before[i] == s[i];
    }
    forall i | 0 <= i < |after| ensures drop(after[i]) {
      assert after[i] == s[hi + i];
    }
  }

  /** A string is what strip returns between the characters it removed. */
  lemma StripSplit(s: string, drop: char -> bool) returns (before: string, after: string)
    ensures s == before + Strip(s, drop) + after
    ensures forall i :: 0 <= i < |before| ==> drop(before[i])
    ensures forall i :: 0 <= i < |after| ==> drop(after[i])
  {
    var r := Strip(s, drop);
    var lo, hi :| Trims(s, drop, lo, hi) && r == s[lo..hi];
    before, after := TrimsSplit(s, drop, lo, hi);
  }

  /** Stripping is the identity on a string whose ends `drop` rejects. */
  lemma StripUnchanged(s: string, drop: char -> bool)
    requires s == [] || (!drop(s[0]) && !drop(s[|s| - 1]))
    ensures Strip(s, drop) == s
  {
  }

  /** Trimming a run of dropped characters stops exactly where the run ends. */
  lemma {:induction false} TrimStartRun(run: string, rest: string, drop: char -> bool)
    requires forall i :: 0 <= i < |run| ==> drop(run[i])
    requires rest == [] || !drop(rest[0])
    ensures TrimStart(run + rest, drop) == rest
    decreases |run|
  {
    if run == [] {
      assert run + rest == rest;
    } else {
      assert (run + rest)[0] == run[0] && (run + rest)[1..] == run[1..] + rest;
      TrimStartRun(run[1..], rest, drop);
    }
  }

  /** Trimming the end stops exactly where a trailing run of dropped characters begins. */
  lemma {:induction false} TrimEndRun(rest: string, run: string, drop: char -> bool)
    requires forall i :: 0 <= i < |run| ==> drop(run[i])
    requires rest == [] || !drop(rest[|rest| - 1])
    ensures TrimEnd(rest + run, drop) == rest
    decreases |run|
  {
    if run == [] {
      assert rest + run == rest;
    } else {
      var s := rest + run;
      assert s[|s| - 1] == run[|run| - 1] && s[..|s| - 1] == rest + run[..|run| - 1];
      TrimEndRun(rest, run[..|run| - 1], drop);
    }
  }

  /** Stripping removes exactly the padding around a core whose ends are kept. */
  lemma StripPadding(before: string, core: string, after: string, drop: char -> bool)
    requires forall i :: 0 <= i < |before| ==> drop(before[i])
    requires forall i :: 0 <= i < |after| ==> drop(after[i])
    requires core != [] && !drop(core[0]) && !drop(core[|core| - 1])
    ensures Strip(before + core + after, drop) == core
  {
    assert before + core + after == before + (core + after);
    TrimStartRun(before, core + after, drop);
    TrimEndRun(core, after, drop);
  }

}
