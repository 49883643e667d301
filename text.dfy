module Wrappers {
  datatype Option<+T> = None | Some(value: T)
}

/** String helpers: runs of one character class, searching backwards for the last
    occurrence of a class or a substring, Python's `in`, `strip`, `rstrip` and
    `lower` on strings. */
module Text {
  import opened Wrappers
  import opened Chars

  /** Every character of `s[lo..hi]` is in class `cls`. */
  predicate AllIn(s: string, lo: nat, hi: nat, cls: CharClass)
    requires lo <= hi <= |s|
  {
    forall t :: lo <= t < hi ==> InClass(cls, s[t])
  }

  /** The end of the longest run of class `cls` starting at `i`. */
  function RunEnd(s: string, i: nat, cls: CharClass): (k: nat)
    requires i <= |s|
    ensures i <= k <= |s| && AllIn(s, i, k, cls)
    ensures k < |s| ==> !InClass(cls, s[k])
    decreases |s| - i
  {
    if i == |s| || !InClass(cls, s[i]) then i else RunEnd(s, i + 1, cls)
  }

  /** Any run of class `cls` from `i` stops at or before `RunEnd(s, i, cls)`. */
  lemma RunWithin(s: string, i: nat, b: nat, cls: CharClass)
    requires i <= b <= |s| && AllIn(s, i, b, cls)
    ensures b <= RunEnd(s, i, cls)
  {
  }

  /** The last position in `[lo, hi)` whose character is in class `cls`. */
  function LastIn(s: string, lo: nat, hi: nat, cls: CharClass): (r: Option<nat>)
    requires hi <= |s|
    ensures r.Some? ==> lo <= r.value < hi && InClass(cls, s[r.value])
    ensures forall t :: lo <= t < hi && InClass(cls, s[t]) ==> r.Some? && t <= r.value
    decreases hi
  {
    if hi <= lo then None
    else if InClass(cls, s[hi - 1]) then Some(hi - 1)
    else LastIn(s, lo, hi - 1, cls)
  }

  /** `pat` occurs in `s` starting at position `t`. */
  predicate OccursAt(s: string, t: nat, pat: string) {
    t + |pat| <= |s| && s[t..t + |pat|] == pat
  }

  /** The last start `t` in `[lo, hi - |pat|]` at which `pat` occurs. */
  function LastOccurrence(s: string, lo: nat, hi: nat, pat: string): (r: Option<nat>)
    requires hi <= |s|
    ensures r.Some? ==> lo <= r.value && r.value + |pat| <= hi && OccursAt(s, r.value, pat)
    ensures forall t :: lo <= t && t + |pat| <= hi && OccursAt(s, t, pat) ==> r.Some? && t <= r.value
    decreases hi
  {
    if hi < lo + |pat| then None
    else if OccursAt(s, hi - |pat|, pat) then Some(hi - |pat|)
    else if hi == 0 then None
    else LastOccurrence(s, lo, hi - 1, pat)
  }

  /** An occurrence in a slice of `s` is an occurrence in `s`. */
  lemma OccursInSlice(s: string, a: nat, e: nat, b: nat, pat: string)
    requires a <= e <= |s| && OccursAt(s[a..e], b, pat)
    ensures OccursAt(s, a + b, pat)
  {
    forall x | 0 <= x < |pat| ensures s[a + b + x] == pat[x] {
      assert s[a..e][b..b + |pat|][x] == pat[x];
    }
  }

  /** Python's `pat in t`, searching from position `a` on. */
  function ContainsFrom(t: string, pat: string, a: nat): (r: bool)
    ensures r <==> exists b :: a <= b && OccursAt(t, b, pat)
    decreases |t| - a
  {
    if a + |pat| > |t| then false
    else if OccursAt(t, a, pat) then true
    else ContainsFrom(t, pat, a + 1)
  }

  /** Python's `pat in t`: `pat` is a substring of `t`. */
  function Contains(t: string, pat: string): (r: bool)
    ensures r <==> exists b :: OccursAt(t, b, pat)
  {
    ContainsFrom(t, pat, 0)
  }

  /** Python's `s.rstrip()`: drops trailing whitespace. */
  function RStrip(s: string): (r: string)
    ensures |r| <= |s| && r == s[..|r|]
    ensures AllIn(s, |r|, |s|, Space)
    ensures r == [] || !IsSpace(r[|r| - 1])
  {
    if s == [] || !IsSpace(s[|s| - 1]) then s else RStrip(s[..|s| - 1])
  }

  /** Python's `s.lstrip()`: drops leading whitespace. */
  function LStrip(s: string): (r: string)
    ensures |r| <= |s| && r == s[|s| - |r|..]
    ensures AllIn(s, 0, |s| - |r|, Space)
    ensures r == [] || !IsSpace(r[0])
  {
    if s == [] || !IsSpace(s[0]) then s else LStrip(s[1..])
  }

  /** Python's `s.strip()`: `s` without its leading and trailing whitespace. */
  function Strip(s: string): (r: string)
    ensures exists a: nat :: a + |r| <= |s| && OccursAt(s, a, r) && AllIn(s, 0, a, Space) && AllIn(s, a + |r|, |s|, Space)
    ensures r == [] || (!IsSpace(r[0]) && !IsSpace(r[|r| - 1]))
  {
    var t := RStrip(s);
    var r := LStrip(t);
    StripParts(s, t, r);
    r
  }

  lemma StripParts(s: string, t: string, r: string)
    requires |t| <= |s| && t == s[..|t|] && AllIn(s, |t|, |s|, Space)
    requires |r| <= |t| && r == t[|t| - |r|..] && AllIn(t, 0, |t| - |r|, Space)
    ensures OccursAt(s, |t| - |r|, r) && AllIn(s, 0, |t| - |r|, Space)
  {
    var a := |t| - |r|;
    assert s[a..a + |r|] == t[a..];
    forall x | 0 <= x < a ensures IsSpace(s[x]) {
      assert s[x] == t[x];
    }
  }

  /** Python's `s.lower()`: every capital letter becomes the letter 32 code points
      further on, every other character stays. */
  function LowerStr(s: string): (r: string)
    ensures |r| == |s|
    ensures forall t :: 0 <= t < |r| ==> !('A' <= r[t] <= 'Z')
    ensures forall t :: 0 <= t < |s| && 'A' <= s[t] <= 'Z' ==> r[t] as int == s[t] as int + 32
    ensures forall t :: 0 <= t < |s| && !('A' <= s[t] <= 'Z') ==> r[t] == s[t]
  {
    seq(|s|, t requires 0 <= t < |s| => Lower(s[t]))
  }

  /** Lower-casing is idempotent: a lower-cased string is fixed by `lower()`. */
  lemma LowerStrIdempotent(s: string)
    ensures LowerStr(LowerStr(s)) == LowerStr(s)
  {
    LowerStrFixes(LowerStr(s));
  }

  /** A string without capital letters is its own lower-cased form. */
  lemma LowerStrFixes(s: string)
    requires forall t :: 0 <= t < |s| ==> !('A' <= s[t] <= 'Z')
    ensures LowerStr(s) == s
  {
  }
}
