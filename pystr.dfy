/**
 * The Python string operations the page-naming rule is built from:
 * `pat in s`, `s.find(pat)`, `s.split(sep)` with its partner `sep.join`,
 * `s.strip()` and `s.replace(a, b)` for one-character arguments.
 */
module PyString {
  import opened Wrappers

  /** `pat` occurs in `s` starting at index `i`. */
  predicate OccursAt(s: string, pat: string, i: int) {
    0 <= i && i + |pat| <= |s| && s[i..i + |pat|] == pat
  }

  /** Python's `pat in s`. */
  predicate Contains(s: string, pat: string) {
    exists i :: 0 <= i <= |s| - |pat| && OccursAt(s, pat, i)
  }

  /** An occurrence past the first character is an occurrence in the tail. */
  lemma OccursInTail(s: string, pat: string)
    requires |s| > 0
    ensures forall j :: j >= 1 ==> (OccursAt(s, pat, j) <==> OccursAt(s[1..], pat, j - 1))
  {
    forall j | j >= 1
      ensures OccursAt(s, pat, j) <==> OccursAt(s[1..], pat, j - 1)
    {
      if j + |pat| <= |s| {
        assert s[1..][j - 1..j - 1 + |pat|] == s[j..j + |pat|];
      }
    }
  }

  /** `s.find(pat)`: the lowest index at which `pat` occurs, or none. */
  function Find(s: string, pat: string): (r: Option<nat>)
    ensures r.Some? ==> OccursAt(s, pat, r.value)
    ensures r.Some? ==> forall j :: 0 <= j < r.value ==> !OccursAt(s, pat, j)
    ensures r.None? ==> forall j :: !OccursAt(s, pat, j)
    decreases |s|
  {
    if |s| < |pat| then None
    else if s[..|pat|] == pat then Some(0)
    else
      OccursInTail(s, pat);
      match Find(s[1..], pat)
      case None => None
      case Some(j) => Some(j + 1)
  }

  lemma FindIffContains(s: string, pat: string)
    ensures Find(s, pat).Some? <==> Contains(s, pat)
  {
    if Find(s, pat).Some? {
      assert OccursAt(s, pat, Find(s, pat).value);
    }
  }

  /** A piece of a string that avoids `pat` avoids it everywhere inside. */
  lemma ContainsTransitive(s: string, t: string, pat: string, i: int)
    requires OccursAt(s, t, i) && Contains(t, pat)
    ensures Contains(s, pat)
  {
    var j :| 0 <= j <= |t| - |pat| && OccursAt(t, pat, j);
    forall k | 0 <= k < |pat|
      ensures s[i + j + k] == pat[k]
    {
      assert s[i..i + |t|][j + k] == t[j + k] == t[j..j + |pat|][k];
    }
    assert OccursAt(s, pat, i + j);
  }

  lemma CharInContains(s: string, c: char)
    requires c in s
    ensures Contains(s, [c])
  {
    var k :| 0 <= k < |s| && s[k] == c;
    assert OccursAt(s, [c], k);
  }

  /** What comes before the leftmost occurrence holds no occurrence. */
  lemma PieceBeforeFirstAvoids(s: string, pat: string, i: int)
    requires 0 <= i <= |s| && |pat| > 0
    requires forall j :: 0 <= j < i ==> !OccursAt(s, pat, j)
    ensures !Contains(s[..i], pat)
  {
    if Contains(s[..i], pat) {
      var j :| 0 <= j <= i - |pat| && OccursAt(s[..i], pat, j);
      assert s[..i][j..j + |pat|] == s[j..j + |pat|];
      assert OccursAt(s, pat, j);
    }
  }

  /** `s.split(sep)` for a non-empty separator: the pieces between the
    * successive leftmost occurrences of `sep`. */
  function Split(s: string, sep: string): (parts: seq<string>)
    requires |sep| > 0
    ensures |parts| >= 1
    ensures |parts| >= 2 <==> Contains(s, sep)
    decreases |s|
  {
    FindIffContains(s, sep);
    match Find(s, sep)
    case None => [s]
    case Some(i) => [s[..i]] + Split(s[i + |sep|..], sep)
  }

  /** The first piece is the text up to the first separator. */
  lemma SplitFirstPiece(s: string, sep: string)
    requires |sep| > 0
    ensures var first := Split(s, sep)[0];
      |first| <= |s| && first == s[..|first|]
  {
    match Find(s, sep)
    case None =>
      assert Split(s, sep) == [s];
    case Some(i) =>
      assert Split(s, sep) == [s[..i]] + Split(s[i + |sep|..], sep);
  }

  /** No piece of a split holds the separator. */
  lemma {:induction false} SplitPiecesAvoid(s: string, sep: string)
    requires |sep| > 0
    ensures forall k :: 0 <= k < |Split(s, sep)| ==> !Contains(Split(s, sep)[k], sep)
    decreases |s|
  {
    FindIffContains(s, sep);
    match Find(s, sep)
    case None =>
      assert Split(s, sep) == [s];
    case Some(i) =>
      var rest := s[i + |sep|..];
      var tailParts := Split(rest, sep);
      SplitPiecesAvoid(rest, sep);
      PieceBeforeFirstAvoids(s, sep, i);
      var parts := Split(s, sep);
      assert parts == [s[..i]] + tailParts;
      forall k | 0 <= k < |parts|
        ensures !Contains(parts[k], sep)
      {
        if k > 0 {
          assert parts[k] == tailParts[k - 1];
        }
      }
  }

  /** `sep.join(parts)`. */
  function Join(parts: seq<string>, sep: string): string {
    if |parts| == 0 then ""
    else if |parts| == 1 then parts[0]
    else parts[0] + sep + Join(parts[1..], sep)
  }

  /** Joining the pieces of a split with its separator gives the string back. */
  lemma {:induction false} SplitJoinRoundTrip(s: string, sep: string)
    requires |sep| > 0
    ensures Join(Split(s, sep), sep) == s
    decreases |s|
  {
    match Find(s, sep)
    case None =>
    case Some(i) =>
      var head, rest := s[..i], s[i + |sep|..];
      SplitJoinRoundTrip(rest, sep);
      var tailParts := Split(rest, sep);
      var parts := Split(s, sep);
      assert parts == [head] + tailParts;
      assert parts[0] == head && parts[1..] == tailParts;
      assert Join(parts, sep) == head + sep + Join(tailParts, sep);
      assert s[i..i + |sep|] == sep;
      assert s == head + sep + rest;
  }

  /** The characters Python's `str.isspace` accepts: the ASCII controls
    * 9..13 and 28..31, the space, and the Unicode separators. */
  predicate IsSpace(c: char) {
    var n := c as int;
    (9 <= n <= 13) || (28 <= n <= 32) || n == 0x85 || n == 0xA0 || n == 0x1680
    || (0x2000 <= n <= 0x200A) || n == 0x2028 || n == 0x2029 || n == 0x202F
    || n == 0x205F || n == 0x3000
  }

  /** Where `s.strip()` starts: the first non-whitespace index at or after `i`. */
  function StripStart(s: string, i: nat): (k: nat)
    requires i <= |s|
    ensures i <= k <= |s|
    decreases |s| - i
  {
    if i < |s| && IsSpace(s[i]) then StripStart(s, i + 1) else i
  }

  /** The scan from `i` passes over whitespace only and stops at a
    * non-whitespace character or at the end. */
  lemma {:induction false} StripStartSpaces(s: string, i: nat)
    requires i <= |s|
    ensures var k := StripStart(s, i);
      (forall m :: i <= m < k ==> IsSpace(s[m])) && (k < |s| ==> !IsSpace(s[k]))
    decreases |s| - i
  {
    if i < |s| && IsSpace(s[i]) {
      StripStartSpaces(s, i + 1);
    }
  }

  /** Where `s.strip()` ends: scanning back from `j`, not past `lo`, the end
    * of the last non-whitespace character. */
  function StripEnd(s: string, lo: nat, j: nat): (k: nat)
    requires lo <= j <= |s|
    ensures lo <= k <= j
  {
    if j > lo && IsSpace(s[j - 1]) then StripEnd(s, lo, j - 1) else j
  }

  /** The backward scan passes over whitespace only and stops after a
    * non-whitespace character or at `lo`. */
  lemma {:induction false} StripEndSpaces(s: string, lo: nat, j: nat)
    requires lo <= j <= |s|
    ensures var k := StripEnd(s, lo, j);
      (forall m :: k <= m < j ==> IsSpace(s[m])) && (k > lo ==> !IsSpace(s[k - 1]))
  {
    if j > lo && IsSpace(s[j - 1]) {
      StripEndSpaces(s, lo, j - 1);
    }
  }

  /** `s.strip()`: the part of `s` between its leading and trailing whitespace. */
  function Strip(s: string): (r: string)
    ensures |r| <= |s|
  {
    var lo := StripStart(s, 0);
    var hi := StripEnd(s, lo, |s|);
    s[lo..hi]
  }

  /** The stripped string sits in `s` where the scan stopped, everything
    * around it is whitespace, and it neither starts nor ends with whitespace. */
  lemma StripSpec(s: string)
    ensures var lo, r := StripStart(s, 0), Strip(s);
      OccursAt(s, r, lo) &&
      (forall k :: 0 <= k < lo ==> IsSpace(s[k])) &&
      (forall k :: lo + |r| <= k < |s| ==> IsSpace(s[k])) &&
      (r == [] || (!IsSpace(r[0]) && !IsSpace(r[|r| - 1])))
  {
    var lo := StripStart(s, 0);
    var hi := StripEnd(s, lo, |s|);
    StripStartSpaces(s, 0);
    StripEndSpaces(s, lo, |s|);
    if lo < hi {
      assert Strip(s)[0] == s[lo];
      assert Strip(s)[hi - lo - 1] == s[hi - 1];
    }
  }

  /** Stripping twice strips nothing more. */
  lemma StripIdempotent(s: string)
    ensures Strip(Strip(s)) == Strip(s)
  {
    var r := Strip(s);
    StripSpec(s);
    if r != [] {
      assert StripStart(r, 0) == 0;
      assert StripEnd(r, 0, |r|) == |r|;
    }
  }

  /** `s.replace(old, new)` where both are single characters. */
  function ReplaceChar(s: string, target: char, replacement: char): (r: string)
    ensures |r| == |s|
    ensures forall k :: 0 <= k < |s| ==> r[k] == (if s[k] == target then replacement else s[k])
  {
    if s == [] then []
    else [if s[0] == target then replacement else s[0]] + ReplaceChar(s[1..], target, replacement)
  }

  /** Replacing by a character the pattern does not use cannot create the pattern. */
  lemma ReplaceCreatesNoPattern(s: string, target: char, replacement: char, pat: string)
    requires replacement !in pat
    ensures Contains(ReplaceChar(s, target, replacement), pat) ==> Contains(s, pat)
  {
    var r := ReplaceChar(s, target, replacement);
    if Contains(r, pat) {
      var i :| 0 <= i <= |r| - |pat| && OccursAt(r, pat, i);
      forall k | 0 <= k < |pat|
        ensures s[i + k] == pat[k]
      {
        assert r[i + k] == r[i..i + |pat|][k] == pat[k];
      }
      assert s[i..i + |pat|] == pat;
      assert OccursAt(s, pat, i);
    }
  }
}
