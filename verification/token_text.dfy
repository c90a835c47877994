/**
 * The `xxxx-xxxx-xxxx-xxxx` shape both refresh-token services give their
 * tokens: sixteen characters in four groups of four, joined by dashes.
 */
module TokenText {
  import opened JavaText

  /** Sixteen characters plus three dashes. */
  const GroupedLength: nat := 19

  /** A prefix one character longer is the prefix and that character. */
  lemma PrefixExtends(s: string, n: nat)
    requires n < |s|
    ensures s[..n + 1] == s[..n] + [s[n]]
  {
  }

  /** A prefix followed by the character after it is the prefix one longer. */
  lemma ExtendPrefix(s: string, prefix: string, c: char)
    requires |prefix| < |s| && prefix == s[..|prefix|] && s[|prefix|] == c
    ensures prefix + [c] == s[..|prefix| + 1]
  {
    PrefixExtends(s, |prefix|);
  }

  /** Position `i` of a grouped token holds a dash exactly when `i % 5 == 4`. */
  predicate IsDashSlot(i: int) {
    i % 5 == 4
  }

  /** The first sixteen characters of `cs`, grouped by four. */
  function Grouped(cs: string): (r: string)
    requires |cs| >= 16
    ensures |r| == GroupedLength
    ensures forall i :: 0 <= i < |r| && IsDashSlot(i) ==> r[i] == '-'
    ensures forall i :: 0 <= i < |r| && !IsDashSlot(i) ==> r[i] == cs[i - i / 5]
  {
    seq(GroupedLength, i requires 0 <= i < GroupedLength => if IsDashSlot(i) then '-' else cs[i - i / 5])
  }

  /** Character `j` of group `i` sits at `5 * i + j`, after the dash that ends group `i - 1`. */
  lemma GroupedSlot(cs: string, i: int, j: int)
    requires |cs| >= 16 && 0 <= i < 4 && 0 <= j < 4
    ensures Grouped(cs)[5 * i + j] == cs[4 * i + j]
    ensures i > 0 ==> Grouped(cs)[5 * i - 1] == '-'
  {
    var n := 5 * i + j;
    assert n / 5 == i && n % 5 == j by {
      assert n == 5 * i + j && 0 <= j < 5;
    }
    if i > 0 {
      assert (5 * i - 1) % 5 == 4 by {
        assert 5 * i - 1 == 5 * (i - 1) + 4;
      }
    }
  }

  /** A grouped token spelled out as its four groups. */
  lemma GroupedParts(cs: string)
    requires |cs| >= 16
    ensures Grouped(cs) == cs[..4] + "-" + cs[4..8] + "-" + cs[8..12] + "-" + cs[12..16]
  {
  }

  /** One dash-free group and its trailing dash lose just the dash. */
  lemma DropGroupDash(x: string, y: string)
    requires '-' !in x
    ensures RemoveAll(x + "-" + y, "-") == x + RemoveAll(y, "-")
  {
    RemoveCharAbsent(x, '-');
    assert x + "-" + y == x + ("-" + y);
    RemoveCharConcat(x, "-" + y, '-');
    RemoveCharConcat("-", y, '-');
    assert RemoveAll("-", "-") == [];
  }

  /**
   * Removing the dashes from a grouped token gives back its sixteen
   * characters, when none of them is a dash.
   */
  lemma UngroupGrouped(cs: string)
    requires |cs| == 16 && '-' !in cs
    ensures RemoveAll(Grouped(cs), "-") == cs
  {
    GroupedParts(cs);
    var a, b, c, d := cs[..4], cs[4..8], cs[8..12], cs[12..16];
    assert forall k :: 0 <= k < 4 ==> a[k] == cs[k] && b[k] == cs[k + 4] && c[k] == cs[k + 8] && d[k] == cs[k + 12];
    assert Grouped(cs) == a + "-" + (b + "-" + (c + "-" + d));
    DropGroupDash(c, d);
    RemoveCharAbsent(d, '-');
    DropGroupDash(b, c + "-" + d);
    DropGroupDash(a, b + "-" + (c + "-" + d));
    assert a + (b + (c + d)) == cs;
  }
}
