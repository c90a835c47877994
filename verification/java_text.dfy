/**
 * The handful of `java.lang.String` operations the modelled code relies on,
 * stated over `seq<char>`: prefix and infix tests, `lastIndexOf`, `replace`
 * with an empty replacement, `trim`, `split(",")[0]` and the case-insensitive
 * comparison against "unknown".
 */
module JavaText {
  import opened Wrappers

  /** `s.startsWith(p)` */
  predicate StartsWith(s: string, p: string) {
    |p| <= |s| && s[..|p|] == p
  }

  /** `p` occurs in `s` starting at index `i`. */
  predicate OccursAt(s: string, p: string, i: int) {
    0 <= i && i + |p| <= |s| && s[i..i + |p|] == p
  }

  /** `s.contains(p)`: `p` occurs somewhere in `s`. */
  predicate Contains(s: string, p: string) {
    exists i :: 0 <= i <= |s| && OccursAt(s, p, i)
  }

  /**
   * `s.lastIndexOf(p)`: the largest index at which `p` occurs, or -1.
   */
  function LastIndexOf(s: string, p: string): (r: int)
    ensures r >= -1
    ensures r >= 0 ==> OccursAt(s, p, r)
    ensures forall j :: r < j ==> !OccursAt(s, p, j)
    decreases |s|
  {
    if |s| < |p| then -1
    else if OccursAt(s, p, |s| - |p|) then |s| - |p|
    else if |s| == 0 then -1
    else
      var r := LastIndexOf(s[..|s| - 1], p);
      assert forall j :: r < j && OccursAt(s, p, j) ==> OccursAt(s[..|s| - 1], p, j) by {
        forall j | r < j && OccursAt(s, p, j)
          ensures OccursAt(s[..|s| - 1], p, j)
        {
          assert s[..|s| - 1][j..j + |p|] == s[j..j + |p|];
        }
      }
      if r >= 0 then
        assert s[..|s| - 1][r..r + |p|] == s[r..r + |p|];
        r
      else r
  }

  lemma LastIndexOfFindsContained(s: string, p: string)
    ensures LastIndexOf(s, p) >= 0 <==> Contains(s, p)
  {
  }

  /** Past the last occurrence of `p`, the rest of `s` holds no occurrence of it. */
  lemma NothingAfterLast(s: string, p: string, start: int)
    requires |p| > 0 && 0 <= start <= |s|
    requires forall j :: start - |p| < j ==> !OccursAt(s, p, j)
    ensures !Contains(s[start..], p)
  {
    forall j | 0 <= j <= |s[start..]| && OccursAt(s[start..], p, j)
      ensures false
    {
      assert s[start..][j..j + |p|] == s[start + j..start + j + |p|];
      assert OccursAt(s, p, start + j);
    }
  }

  /** A string that does not contain the one-char string `[c]` has no `c`. */
  lemma NoCharOccurrence(s: string, c: char)
    requires !Contains(s, [c])
    ensures c !in s
  {
    forall j | 0 <= j < |s|
      ensures s[j] != c
    {
      assert !OccursAt(s, [c], j);
      assert s[j..j + 1] == [s[j]];
    }
  }

  /**
   * `s.replace(p, "")`: every non-overlapping occurrence of `p`, scanning
   * left to right, is removed.
   */
  function RemoveAll(s: string, p: string): (r: string)
    requires |p| > 0
    ensures |r| <= |s|
    decreases |s|
  {
    if |s| == 0 then []
    else if StartsWith(s, p) then RemoveAll(s[|p|..], p)
    else [s[0]] + RemoveAll(s[1..], p)
  }

  lemma {:induction false} RemoveAllWithoutOccurrence(s: string, p: string)
    requires |p| > 0
    requires !Contains(s, p)
    ensures RemoveAll(s, p) == s
    decreases |s|
  {
    if |s| > 0 {
      assert !StartsWith(s, p) by {
        if |p| <= |s| {
          assert s[..|p|] == s[0..|p|];
          assert !OccursAt(s, p, 0);
        }
      }
      assert !Contains(s[1..], p) by {
        forall i | OccursAt(s[1..], p, i)
          ensures false
        {
          assert s[1..][i..i + |p|] == s[i + 1..i + 1 + |p|];
          assert OccursAt(s, p, i + 1);
        }
      }
      RemoveAllWithoutOccurrence(s[1..], p);
      assert [s[0]] + s[1..] == s;
    }
  }

  /** A leading occurrence is removed and the scan goes on after it. */
  lemma RemoveAllLeading(p: string, s: string)
    requires |p| > 0
    ensures RemoveAll(p + s, p) == RemoveAll(s, p)
  {
    assert (p + s)[..|p|] == p;
    assert (p + s)[|p|..] == s;
  }

  /**
   * A stretch in which no occurrence starts is copied through unchanged, and
   * the scan resumes right after it.
   */
  lemma {:induction false} RemoveAllSkipsClean(x: string, y: string, p: string)
    requires |p| > 0
    requires forall j :: 0 <= j < |x| ==> !OccursAt(x + y, p, j)
    ensures RemoveAll(x + y, p) == x + RemoveAll(y, p)
    decreases |x|
  {
    if |x| == 0 {
      assert x + y == y;
    } else {
      var s := x + y;
      assert !StartsWith(s, p) by {
        assert !OccursAt(s, p, 0);
        if |p| <= |s| {
          assert s[..|p|] == s[0..|p|];
        }
      }
      assert s[1..] == x[1..] + y;
      forall j | 0 <= j < |x[1..]|
        ensures !OccursAt(x[1..] + y, p, j)
      {
        assert !OccursAt(s, p, j + 1);
        if j + |p| <= |s[1..]| {
          assert s[1..][j..j + |p|] == s[j + 1..j + 1 + |p|];
        }
      }
      RemoveAllSkipsClean(x[1..], y, p);
      assert [x[0]] + x[1..] == x;
    }
  }

  /** Removing a one-char pattern distributes over concatenation. */
  lemma {:induction false} RemoveCharConcat(a: string, b: string, c: char)
    ensures RemoveAll(a + b, [c]) == RemoveAll(a, [c]) + RemoveAll(b, [c])
    decreases |a|
  {
    if |a| == 0 {
      assert a + b == b;
    } else {
      assert (a + b)[1..] == a[1..] + b;
      assert (a + b)[..1] == [a[0]];
      assert StartsWith(a + b, [c]) <==> StartsWith(a, [c]);
      RemoveCharConcat(a[1..], b, c);
    }
  }

  /** A string without the char is left as it is. */
  lemma {:induction false} RemoveCharAbsent(s: string, c: char)
    requires c !in s
    ensures RemoveAll(s, [c]) == s
    decreases |s|
  {
    if |s| > 0 {
      assert s[..1] == [s[0]];
      RemoveCharAbsent(s[1..], c);
      assert [s[0]] + s[1..] == s;
    }
  }

  /** Java `Character` whitespace as `trim` sees it: every char up to U+0020. */
  predicate IsTrimmable(c: char) {
    c <= ' '
  }

  function TrimStart(s: string): (r: string)
    ensures |r| <= |s| && r == s[|s| - |r|..]
    ensures |r| > 0 ==> !IsTrimmable(r[0])
    ensures forall i :: 0 <= i < |s| - |r| ==> IsTrimmable(s[i])
    decreases |s|
  {
    if |s| > 0 && IsTrimmable(s[0]) then TrimStart(s[1..]) else s
  }

  function TrimEnd(s: string): (r: string)
    ensures |r| <= |s| && r == s[..|r|]
    ensures |r| > 0 ==> !IsTrimmable(r[|r| - 1])
    ensures forall i :: |r| <= i < |s| ==> IsTrimmable(s[i])
    decreases |s|
  {
    if |s| > 0 && IsTrimmable(s[|s| - 1]) then TrimEnd(s[..|s| - 1]) else s
  }

  /** `s.trim()` */
  function Trim(s: string): (r: string)
    ensures |r| <= |s|
    ensures forall c :: c in r ==> c in s
    ensures |r| > 0 ==> !IsTrimmable(r[0]) && !IsTrimmable(r[|r| - 1])
  {
    TrimEnd(TrimStart(s))
  }

  /** A string with no trimmable character at either end is its own trim. */
  lemma TrimOfTrimmed(s: string)
    requires |s| > 0 ==> !IsTrimmable(s[0]) && !IsTrimmable(s[|s| - 1])
    ensures Trim(s) == s
  {
  }

  /** The index of the first `c` in `s`, or `|s|` when there is none. */
  function IndexOfChar(s: string, c: char): (r: nat)
    ensures r <= |s|
    ensures r < |s| ==> s[r] == c
    ensures forall i :: 0 <= i < r ==> s[i] != c
    decreases |s|
  {
    if |s| == 0 then 0
    else if s[0] == c then 0
    else 1 + IndexOfChar(s[1..], c)
  }

  /** `s` is non-empty and made of commas only. */
  predicate OnlyCommas(s: string) {
    |s| > 0 && forall i :: 0 <= i < |s| ==> s[i] == ','
  }

  /**
   * `s.split(",")[0]`. Java drops trailing empty fields, so a non-empty string
   * made only of commas splits into an empty array and indexing it throws
   * (`None`); otherwise the first field is the text before the first comma
   * (the whole string when there is none, including the empty string).
   */
  function SplitFirstField(s: string): (r: Option<string>)
    ensures r.None? <==> OnlyCommas(s)
    ensures r.Some? ==> StartsWith(s, r.value) && ',' !in r.value
    ensures r.Some? && |r.value| < |s| ==> s[|r.value|] == ','
  {
    if OnlyCommas(s) then None
    else
      var k := IndexOfChar(s, ',');
      assert forall c :: c in s[..k] ==> c != ',';
      Some(s[..k])
  }

  /** A string without a comma is its own first field. */
  lemma SplitWithoutComma(s: string)
    requires ',' !in s
    ensures SplitFirstField(s) == Some(s)
  {
    assert !OnlyCommas(s) by {
      if |s| > 0 {
        assert s[0] in s;
      }
    }
    assert IndexOfChar(s, ',') == |s|;
    assert s[..|s|] == s;
  }

  /** `s.contains(",")` */
  predicate HasComma(s: string) {
    ',' in s
  }

  /** The Kelvin sign U+212A, whose lower case under `Character.toLowerCase` is 'k'. */
  const KelvinSign: char := '\U{212A}'

  /**
   * Java's per-char case-insensitive match of `c` against a lower-case ASCII
   * letter `l` other than 'i' and 's': the letter itself, its upper case, and
   * for 'k' also the Kelvin sign.
   */
  predicate FoldsTo(c: char, l: char)
    requires 'a' <= l <= 'z' && l != 'i' && l != 's'
  {
    c == l || c == (l as int - 32) as char || (l == 'k' && c == KelvinSign)
  }

  const Unknown: string := "unknown"

  /** `"unknown".equalsIgnoreCase(s)` */
  predicate IsUnknownIgnoringCase(s: string) {
    |s| == |Unknown| && forall i :: 0 <= i < |s| ==> FoldsTo(s[i], Unknown[i])
  }

  lemma UnknownSpellings()
    ensures IsUnknownIgnoringCase("unknown")
    ensures IsUnknownIgnoringCase("UNKNOWN")
    ensures IsUnknownIgnoringCase("Unknown")
    ensures IsUnknownIgnoringCase(['u', 'n', KelvinSign, 'n', 'o', 'w', 'n'])
    ensures !IsUnknownIgnoringCase("unknown ")
  {
    assert "UNKNOWN"[2] == 'K';
  }
}
