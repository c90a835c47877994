/**
 * A table of records as an ordered sequence (the order a list query returns
 * rows in), with the three shapes of JPQL statement the repositories use:
 * `SELECT ... WHERE p` (`Find`, `Filter`), `UPDATE ... SET ... WHERE p`
 * (`Update`) and `DELETE ... WHERE p` (`Filter` on the negation), and the
 * row count a bulk statement returns (`Count`).
 */
module Store {
  import opened Wrappers

  /** The number of rows satisfying `p`. */
  function Count<T>(s: seq<T>, p: T -> bool): (n: nat)
    ensures n <= |s|
    ensures n == 0 <==> forall i :: 0 <= i < |s| ==> !p(s[i])
    ensures n == |s| <==> forall i :: 0 <= i < |s| ==> p(s[i])
  {
    if |s| == 0 then 0
    else
      var rest := Count(s[1..], p);
      assert forall i :: 1 <= i < |s| ==> s[i] == s[1..][i - 1];
      (if p(s[0]) then 1 else 0) + rest
  }

  /** The rows satisfying `p`, in table order. */
  function Filter<T(==)>(s: seq<T>, p: T -> bool): (r: seq<T>)
    ensures |r| == Count(s, p)
    ensures forall i :: 0 <= i < |r| ==> r[i] in s && p(r[i])
    ensures forall i :: 0 <= i < |s| && p(s[i]) ==> s[i] in r
  {
    if |s| == 0 then []
    else
      var rest := Filter(s[1..], p);
      assert forall i :: 1 <= i < |s| ==> s[i] == s[1..][i - 1];
      if p(s[0]) then [s[0]] + rest else rest
  }

  /** `UPDATE ... SET f WHERE p`: each row satisfying `p` is rewritten by `f` in place. */
  function Update<T>(s: seq<T>, p: T -> bool, f: T -> T): (r: seq<T>)
    ensures |r| == |s|
    ensures forall i :: 0 <= i < |s| ==> r[i] == if p(s[i]) then f(s[i]) else s[i]
  {
    seq(|s|, i requires 0 <= i < |s| => if p(s[i]) then f(s[i]) else s[i])
  }

  /** The first row satisfying `p`, if any. */
  function Find<T>(s: seq<T>, p: T -> bool): (r: Option<T>)
    ensures r.None? <==> forall i :: 0 <= i < |s| ==> !p(s[i])
    ensures r.Some? ==> r.value in s && p(r.value)
  {
    if |s| == 0 then None
    else if p(s[0]) then Some(s[0])
    else
      var rest := Find(s[1..], p);
      assert forall i :: 1 <= i < |s| ==> s[i] == s[1..][i - 1];
      rest
  }

  /**
   * Every row satisfies exactly one of `p` and its complement `q`, so a delete
   * by `q` keeps `Count(s, p)` rows and removes `Count(s, q)`.
   */
  lemma {:induction false} DeleteCount<T>(s: seq<T>, p: T -> bool, q: T -> bool)
    requires forall x :: q(x) == !p(x)
    ensures |s| == Count(s, p) + Count(s, q)
  {
    if |s| > 0 {
      DeleteCount(s[1..], p, q);
    }
  }

  /** Filtering by a predicate every row already satisfies changes nothing. */
  lemma {:induction false} FilterAll<T>(s: seq<T>, p: T -> bool)
    requires forall i :: 0 <= i < |s| ==> p(s[i])
    ensures Filter(s, p) == s
  {
    if |s| > 0 {
      FilterAll(s[1..], p);
    }
  }

  /** Rows satisfying `q` keep their multiplicity under a filter that keeps every `q`-row. */
  lemma {:induction false} FilterKeepsCount<T>(s: seq<T>, p: T -> bool, q: T -> bool)
    requires forall x :: q(x) ==> p(x)
    ensures Count(Filter(s, p), q) == Count(s, q)
  {
    if |s| > 0 {
      FilterKeepsCount(s[1..], p, q);
      if p(s[0]) {
        assert Filter(s, p)[1..] == Filter(s[1..], p);
      }
    }
  }

  /** Counting is monotone in the predicate. */
  lemma {:induction false} CountMonotone<T>(s: seq<T>, p: T -> bool, q: T -> bool)
    requires forall x :: p(x) ==> q(x)
    ensures Count(s, p) <= Count(s, q)
  {
    if |s| > 0 {
      CountMonotone(s[1..], p, q);
    }
  }

  /** The number of positions at which two equally long tables differ. */
  function Differences<T(==)>(s: seq<T>, t: seq<T>): (n: nat)
    requires |s| == |t|
    ensures n <= |s|
    ensures n == 0 <==> s == t
  {
    if |s| == 0 then 0
    else
      var rest := Differences(s[1..], t[1..]);
      assert s == [s[0]] + s[1..] && t == [t[0]] + t[1..];
      (if s[0] != t[0] then 1 else 0) + rest
  }

  /**
   * An update that really changes every row it selects changes exactly
   * `Count(s, p)` rows.
   */
  lemma {:induction false} UpdateChangesCount<T>(s: seq<T>, p: T -> bool, f: T -> T)
    requires forall x :: p(x) ==> f(x) != x
    ensures Differences(s, Update(s, p, f)) == Count(s, p)
  {
    if |s| > 0 {
      var r := Update(s, p, f);
      UpdateChangesCount(s[1..], p, f);
      assert r[1..] == Update(s[1..], p, f);
    }
  }

  /** No two rows share a key (a `unique = true` column). */
  predicate UniqueBy<T>(s: seq<T>, key: T -> string) {
    forall i, j :: 0 <= i < |s| && 0 <= j < |s| && key(s[i]) == key(s[j]) ==> i == j
  }

  /**
   * With unique keys, a search for a predicate that pins the key down finds the
   * one row carrying that key.
   */
  lemma FindUniqueKey<T>(s: seq<T>, key: T -> string, p: T -> bool, i: int)
    requires UniqueBy(s, key)
    requires 0 <= i < |s| && p(s[i])
    requires forall x :: p(x) ==> key(x) == key(s[i])
    ensures Find(s, p) == Some(s[i])
  {
    var r := Find(s, p);
    var j :| 0 <= j < |s| && s[j] == r.value;
  }

  /** Dropping the first row keeps keys unique. */
  lemma TailUniqueBy<T>(s: seq<T>, key: T -> string)
    requires |s| > 0 && UniqueBy(s, key)
    ensures UniqueBy(s[1..], key)
  {
    var tail := s[1..];
    forall i, j | 0 <= i < |tail| && 0 <= j < |tail| && key(tail[i]) == key(tail[j])
      ensures i == j
    {
      assert s[i + 1] == tail[i] && s[j + 1] == tail[j];
    }
  }

  /** In a table with unique keys, no row after the first shares the first row's key. */
  lemma HeadKeyFresh<T>(s: seq<T>, key: T -> string, rest: seq<T>)
    requires |s| > 0 && UniqueBy(s, key)
    requires forall k :: 0 <= k < |rest| ==> rest[k] in s[1..]
    ensures forall k :: 0 <= k < |rest| ==> key(rest[k]) != key(s[0])
  {
    forall k | 0 <= k < |rest|
      ensures key(rest[k]) != key(s[0])
    {
      var m :| 0 <= m < |s[1..]| && s[1..][m] == rest[k];
      assert s[m + 1] == rest[k];
    }
  }

  /** A filtered table keeps keys unique. */
  lemma {:induction false} FilterUniqueBy<T>(s: seq<T>, p: T -> bool, key: T -> string)
    requires UniqueBy(s, key)
    ensures UniqueBy(Filter(s, p), key)
  {
    if |s| > 0 {
      TailUniqueBy(s, key);
      FilterUniqueBy(s[1..], p, key);
      var rest := Filter(s[1..], p);
      if p(s[0]) {
        HeadKeyFresh(s, key, rest);
        var r := [s[0]] + rest;
        forall i, j | 0 <= i < |r| && 0 <= j < |r| && key(r[i]) == key(r[j])
          ensures i == j
        {
          if i > 0 && j > 0 {
            assert r[i] == rest[i - 1] && r[j] == rest[j - 1];
          }
        }
        assert Filter(s, p) == r;
      }
    }
  }

  /** The result of a finder that expects at most one row. */
  datatype Lookup<T> = NotFound | Found(value: T) | NonUnique

  /**
   * A derived `Optional<T> findByX(..)` query: empty when no row matches, the
   * row when exactly one does, and an `IncorrectResultSizeDataAccessException`
   * (`NonUnique`) when several do.
   */
  function FindUnique<T(==)>(s: seq<T>, p: T -> bool): (r: Lookup<T>)
    ensures r.NotFound? <==> Count(s, p) == 0
    ensures r.Found? <==> Count(s, p) == 1
    ensures r.Found? ==> r.value in s && p(r.value)
  {
    var f := Filter(s, p);
    if |f| == 0 then NotFound
    else if |f| == 1 then Found(f[0])
    else NonUnique
  }

  /** An update that never touches the key keeps keys unique. */
  lemma UpdateUniqueBy<T>(s: seq<T>, p: T -> bool, f: T -> T, key: T -> string)
    requires UniqueBy(s, key)
    requires forall x :: key(f(x)) == key(x)
    ensures UniqueBy(Update(s, p, f), key)
  {
    var r := Update(s, p, f);
    assert forall i :: 0 <= i < |s| ==> key(r[i]) == key(s[i]);
  }

  /** Appending a row whose key is new keeps keys unique. */
  lemma AppendUniqueBy<T>(s: seq<T>, x: T, key: T -> string)
    requires UniqueBy(s, key)
    requires forall i :: 0 <= i < |s| ==> key(s[i]) != key(x)
    ensures UniqueBy(s + [x], key)
  {
    var r := s + [x];
    assert forall i :: 0 <= i < |s| ==> r[i] == s[i];
  }

  /** What a bulk `UPDATE` or `DELETE` leaves behind, with the row count it reports. */
  datatype Bulk<T> = Bulk(rows: seq<T>, count: nat)

  /**
   * Filtering after an update that makes every row it touches fail the filter
   * is filtering by "untouched and passing" (`r`) on the original table.
   */
  lemma {:induction false} FilterAfterUpdate<T>(s: seq<T>, p: T -> bool, f: T -> T, q: T -> bool, r: T -> bool)
    requires forall x :: p(x) ==> !q(f(x))
    requires forall x :: r(x) == (!p(x) && q(x))
    ensures Filter(Update(s, p, f), q) == Filter(s, r)
  {
    if |s| > 0 {
      var u := Update(s, p, f);
      assert u[1..] == Update(s[1..], p, f);
      FilterAfterUpdate(s[1..], p, f, q, r);
    }
  }

  /**
   * A search whose predicate an update cannot change finds the same row
   * afterwards, as the update left it.
   */
  lemma {:induction false} FindAfterUpdate<T>(s: seq<T>, p: T -> bool, f: T -> T, q: T -> bool)
    requires forall x :: q(f(x)) == q(x)
    ensures Find(Update(s, p, f), q) ==
      match Find(s, q)
      case None => None
      case Some(x) => Some(if p(x) then f(x) else x)
  {
    if |s| > 0 {
      var u := Update(s, p, f);
      assert u[1..] == Update(s[1..], p, f);
      FindAfterUpdate(s[1..], p, f, q);
    }
  }

  /**
   * Overwriting every `p`-row with one row `x` that satisfies `p` makes `x`
   * what the next search for `p` finds, provided some row was overwritten.
   */
  lemma FindAfterReplace<T>(s: seq<T>, p: T -> bool, x: T)
    requires p(x) && Find(s, p).Some?
    ensures Find(Update(s, p, _ => x), p) == Some(x)
  {
    var u := Update(s, p, _ => x);
    var i :| 0 <= i < |s| && s[i] == Find(s, p).value;
    assert p(u[i]);
    var r := Find(u, p).value;
    var j :| 0 <= j < |u| && u[j] == r;
  }

  /** Two distinct rows satisfying `p` make the count at least two. */
  lemma {:induction false} CountTwo<T>(s: seq<T>, p: T -> bool, i: int, j: int)
    requires 0 <= i < |s| && 0 <= j < |s| && i != j && p(s[i]) && p(s[j])
    ensures Count(s, p) >= 2
  {
    if i > 0 && j > 0 {
      CountTwo(s[1..], p, i - 1, j - 1);
    } else {
      var k := if i == 0 then j else i;
      assert p(s[1..][k - 1]);
    }
  }

  /** A table where only row `i` satisfies `p` counts one. */
  lemma {:induction false} OnlyOne<T>(s: seq<T>, p: T -> bool, i: int)
    requires 0 <= i < |s| && p(s[i])
    requires forall j :: 0 <= j < |s| && p(s[j]) ==> j == i
    ensures Count(s, p) == 1
  {
    if i > 0 {
      assert forall j :: 0 <= j < |s| - 1 && p(s[1..][j]) ==> j == i - 1 by {
        assert forall j :: 0 <= j < |s| - 1 ==> s[1..][j] == s[j + 1];
      }
      OnlyOne(s[1..], p, i - 1);
    } else {
      assert forall j :: 0 <= j < |s| - 1 ==> !p(s[1..][j]) by {
        assert forall j :: 0 <= j < |s| - 1 ==> s[1..][j] == s[j + 1];
      }
    }
  }

  /** Filtering a table with one more row at the end. */
  lemma {:induction false} FilterAppend<T>(s: seq<T>, x: T, p: T -> bool)
    ensures Filter(s + [x], p) == Filter(s, p) + (if p(x) then [x] else [])
  {
    if |s| > 0 {
      assert (s + [x])[1..] == s[1..] + [x];
      FilterAppend(s[1..], x, p);
    } else {
      assert s + [x] == [x];
    }
  }
}
