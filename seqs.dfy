/**
  Sequence helpers shared by the table view and the picker cell: the
  "remove the first occurrence" that `splice(i, 1)` after a linear search
  performs, duplicate freedom, integer ranges, and removal of a range of
  values from a sequence of indices.
*/
module Seqs {

  predicate NoDuplicates<T(==)>(s: seq<T>)
  {
    forall i, j :: 0 <= i < j < |s| ==> s[i] != s[j]
  }

  /** The position of the first occurrence of x. */
  function FirstIndex<T(==)>(s: seq<T>, x: T): (i: nat)
    requires x in s
    ensures i < |s| && s[i] == x && x !in s[..i]
  {
    if s[0] == x then 0
    else
      var j := FirstIndex(s[1..], x);
      assert s[..j + 1] == [s[0]] + s[1..][..j];
      j + 1
  }

  /** The first occurrence is the only position holding x with no x before it. */
  lemma {:induction false} FirstIndexUnique<T>(s: seq<T>, x: T, k: nat)
    requires k < |s| && s[k] == x && x !in s[..k]
    ensures FirstIndex(s, x) == k
  {
    if k > 0 {
      assert s[0] in s[..k];
      assert s[1..][..k - 1] == s[1..k];
      assert x !in s[1..k] by {
        forall m | 0 <= m < k - 1 ensures s[1..k][m] != x {
          assert s[1..k][m] == s[..k][m + 1];
        }
      }
      FirstIndexUnique(s[1..], x, k - 1);
    }
  }

  /** `s.splice(i, 1)` at the first i with s[i] == x, or s itself when x does not occur. */
  function RemoveFirst<T(==)>(s: seq<T>, x: T): seq<T>
  {
    if s == [] then []
    else if s[0] == x then s[1..]
    else [s[0]] + RemoveFirst(s[1..], x)
  }

  /** In a sequence of at most one element, RemoveFirst empties it when the element is x and keeps it otherwise. */
  lemma RemoveFirstOfAtMostOne<T>(s: seq<T>, x: T)
    requires |s| <= 1
    ensures RemoveFirst(s, x) == if x in s then [] else s
  {
  }

  /** RemoveFirst takes out exactly the element at the first matching position. */
  lemma {:induction false} RemoveFirstAt<T>(s: seq<T>, x: T)
    ensures x !in s ==> RemoveFirst(s, x) == s
    ensures x in s ==> RemoveFirst(s, x) == s[..FirstIndex(s, x)] + s[FirstIndex(s, x) + 1..]
  {
    if s != [] && s[0] != x {
      RemoveFirstAt(s[1..], x);
      if x in s {
        assert x in s[1..];
        var j := FirstIndex(s[1..], x);
        assert FirstIndex(s, x) == j + 1;
        assert s[..j + 1] == [s[0]] + s[1..][..j];
        assert s[j + 2..] == s[1..][j + 1..];
      } else {
        assert s == [s[0]] + s[1..];
      }
    }
  }

  /** Removing the first occurrence takes one copy of x out of the multiset and nothing else. */
  lemma {:induction false} RemoveFirstMultiset<T>(s: seq<T>, x: T)
    ensures multiset(RemoveFirst(s, x)) == multiset(s) - multiset{x}
  {
    if s != [] {
      assert s == [s[0]] + s[1..];
      if s[0] != x {
        RemoveFirstMultiset(s[1..], x);
      }
    }
  }

  /** On a duplicate-free sequence RemoveFirst keeps the order of the rest and removes every x. */
  lemma RemoveFirstNoDuplicates<T>(s: seq<T>, x: T)
    requires NoDuplicates(s)
    ensures NoDuplicates(RemoveFirst(s, x))
    ensures forall y :: y in RemoveFirst(s, x) ==> y in s && y != x
    ensures forall y :: y in s && y != x ==> y in RemoveFirst(s, x)
  {
    RemoveFirstAt(s, x);
    if x in s {
      var i := FirstIndex(s, x);
      var r := s[..i] + s[i + 1..];
      assert NoDuplicates(r) by {
        forall a, b | 0 <= a < b < |r| ensures r[a] != r[b] {
          var a', b' := if a < i then a else a + 1, if b < i then b else b + 1;
          assert r[a] == s[a'] && r[b] == s[b'];
        }
      }
      forall y | y in r ensures y in s && y != x {
        var k :| 0 <= k < |r| && r[k] == y;
        assert k < i ==> r[k] == s[k];
        assert k >= i ==> r[k] == s[k + 1];
      }
      forall y | y in s && y != x ensures y in r {
        var k :| 0 <= k < |s| && s[k] == y;
        assert k != i;
        if k < i { assert r[k] == y; } else { assert r[k - 1] == y; }
      }
    }
  }

  /** Appending a new element keeps a sequence duplicate-free. */
  lemma AppendNoDuplicates<T>(s: seq<T>, x: T)
    requires NoDuplicates(s) && x !in s
    ensures NoDuplicates(s + [x])
  {
    var r := s + [x];
    forall a, b | 0 <= a < b < |r| ensures r[a] != r[b] {
      assert r[a] == s[a];
    }
  }

  /** Dropping the last element keeps a sequence duplicate-free, and the dropped element is not among the rest. */
  lemma DropLastNoDuplicates<T>(s: seq<T>)
    requires NoDuplicates(s) && |s| > 0
    ensures NoDuplicates(s[..|s| - 1]) && s[|s| - 1] !in s[..|s| - 1]
  {
  }

  /** A sequence whose every element is in t is empty when t is. */
  lemma CoveredBy<T>(s: seq<T>, t: seq<T>)
    requires forall x :: x in s ==> x in t
    ensures |s| > 0 ==> |t| > 0
  {
    assert |s| > 0 ==> s[0] in s;
  }

  /** The integers a, a + 1, ..., b in ascending order (empty when b < a). */
  function Range(a: int, b: int): (r: seq<int>)
    ensures |r| == (if a <= b then b - a + 1 else 0)
    ensures forall k :: 0 <= k < |r| ==> r[k] == a + k
  {
    seq(if a <= b then b - a + 1 else 0, k => a + k)
  }

  /** Two adjacent ranges concatenate to one. */
  lemma RangeConcat(a: int, b: int, c: int)
    requires a <= b + 1 <= c + 1
    ensures Range(a, b) + Range(b + 1, c) == Range(a, c)
  {
  }

  /** Appending b + 1 to the range [a, b] after a prefix xs gives the range [a, b + 1] after xs. */
  lemma RangeSnoc(xs: seq<int>, a: int, b: int)
    requires a <= b + 1
    ensures xs + Range(a, b) + [b + 1] == xs + Range(a, b + 1)
  {
    assert Range(a, b) + [b + 1] == Range(a, b + 1);
  }

  /** One step of a loop that appends rows `a..b` one at a time. */
  lemma AppendStep(shown: seq<int>, xs: seq<int>, a: int, i: int)
    requires a <= i && shown == xs + Range(a, i - 1)
    ensures shown + [i] == xs + Range(a, i)
  {
    RangeSnoc(xs, a, i - 1);
  }

  /** One step of a loop that prepends rows `a..b` one at a time, from `b` down. */
  lemma PrependStep(shown: seq<int>, xs: seq<int>, i: int, b: int)
    requires i <= b && shown == Range(i + 1, b) + xs
    ensures [i] + shown == Range(i, b) + xs
  {
    RangeCons(xs, i + 1, b);
  }

  /** Prepending a - 1 to the range [a, b] before a suffix xs gives the range [a - 1, b] before xs. */
  lemma RangeCons(xs: seq<int>, a: int, b: int)
    requires a - 1 <= b
    ensures [a - 1] + (Range(a, b) + xs) == Range(a - 1, b) + xs
  {
    assert [a - 1] + Range(a, b) == Range(a - 1, b);
  }

  /** A range whose upper bound lies below its lower bound is empty. */
  lemma EmptyRange(a: int, b: int)
    requires b < a
    ensures Range(a, b) == []
  {
  }

  /** Two ranges that meet at m, the second possibly empty, repeat no value. */
  lemma AdjacentRangesNoDuplicates(a: int, m: int, t: int)
    requires a <= m + 1
    ensures NoDuplicates(Range(a, m) + Range(m + 1, t))
  {
    if m <= t {
      RangeConcat(a, m, t);
      RangeNoDuplicates(a, t);
    } else {
      assert Range(a, m) + Range(m + 1, t) == Range(a, m);
      RangeNoDuplicates(a, m);
    }
  }

  /** A range is duplicate-free. */
  lemma RangeNoDuplicates(a: int, b: int)
    ensures NoDuplicates(Range(a, b))
  {
  }

  /** The values of xs outside the closed interval [lo, hi], in their original order. */
  function Outside(xs: seq<int>, lo: int, hi: int): seq<int>
  {
    if xs == [] then []
    else (if lo <= xs[0] <= hi then [] else [xs[0]]) + Outside(xs[1..], lo, hi)
  }

  /** Widening the interval by one value i removes the first (on duplicate-free input: the only) occurrence of i. */
  lemma {:induction false} OutsideStep(xs: seq<int>, lo: int, i: int)
    requires lo <= i && NoDuplicates(xs)
    ensures Outside(xs, lo, i) == RemoveFirst(Outside(xs, lo, i - 1), i)
  {
    if xs != [] {
      assert NoDuplicates(xs[1..]) by {
        forall a, b | 0 <= a < b < |xs[1..]| ensures xs[1..][a] != xs[1..][b] {
          assert xs[1..][a] == xs[a + 1] && xs[1..][b] == xs[b + 1];
        }
      }
      OutsideStep(xs[1..], lo, i);
      var t := Outside(xs[1..], lo, i - 1);
      if xs[0] == i {
        OutsideSubset(xs[1..], lo, i - 1);
        assert i !in xs[1..];
        assert i !in t;
        RemoveFirstAt(t, i);
        assert ([i] + t)[1..] == t;
      } else if lo <= xs[0] <= i - 1 {
        assert Outside(xs, lo, i) == Outside(xs[1..], lo, i);
        assert Outside(xs, lo, i - 1) == t;
      } else {
        assert ([xs[0]] + t)[1..] == t;
      }
    }
  }

  /** Outside keeps only values of xs, so it is duplicate-free when xs is. */
  lemma {:induction false} OutsideSubset(xs: seq<int>, lo: int, hi: int)
    ensures forall y :: y in Outside(xs, lo, hi) ==> y in xs
    ensures NoDuplicates(xs) ==> NoDuplicates(Outside(xs, lo, hi))
  {
    if xs != [] {
      OutsideSubset(xs[1..], lo, hi);
      var r := Outside(xs, lo, hi);
      var t := Outside(xs[1..], lo, hi);
      if NoDuplicates(xs) && !(lo <= xs[0] <= hi) {
        assert r == [xs[0]] + t;
        assert xs[0] !in t;
        forall a, b | 0 <= a < b < |r| ensures r[a] != r[b] {
          if a == 0 { assert r[b] == t[b - 1]; } else { assert r[a] == t[a - 1] && r[b] == t[b - 1]; }
        }
      }
    }
  }

  /** Outside over an empty interval keeps everything. */
  lemma {:induction false} OutsideEmptyInterval(xs: seq<int>, lo: int, hi: int)
    requires hi < lo
    ensures Outside(xs, lo, hi) == xs
  {
    if xs != [] {
      OutsideEmptyInterval(xs[1..], lo, hi);
      assert xs == [xs[0]] + xs[1..];
    }
  }

  /** Outside distributes over concatenation. */
  lemma {:induction false} OutsideConcat(xs: seq<int>, ys: seq<int>, lo: int, hi: int)
    ensures Outside(xs + ys, lo, hi) == Outside(xs, lo, hi) + Outside(ys, lo, hi)
  {
    if xs != [] {
      assert (xs + ys)[0] == xs[0];
      assert (xs + ys)[1..] == xs[1..] + ys;
      OutsideConcat(xs[1..], ys, lo, hi);
    } else {
      assert xs + ys == ys;
    }
  }

  /** A range with every value in [lo, hi] removed, when all of [a, b] lies on one side or inside. */
  lemma {:induction false} OutsideRange(a: int, b: int, lo: int, hi: int)
    ensures (b < lo || hi < a) ==> Outside(Range(a, b), lo, hi) == Range(a, b)
    ensures lo <= a <= b <= hi ==> Outside(Range(a, b), lo, hi) == []
    decreases b - a
  {
    if a <= b {
      assert Range(a, b) == [a] + Range(a + 1, b);
      OutsideRange(a + 1, b, lo, hi);
    }
  }

  /** Removing a leading block [lo, hi] with lo <= a from the range [a, b] leaves [max(a, hi + 1), b]. */
  lemma OutsideRangePrefix(a: int, b: int, lo: int, hi: int)
    requires lo <= a
    ensures Outside(Range(a, b), lo, hi) == Range(if hi + 1 > a then hi + 1 else a, b)
  {
    var m := if hi + 1 > a then hi + 1 else a;
    if a <= b && a < m {
      var cut := if m <= b + 1 then m else b + 1;
      RangeConcat(a, cut - 1, b);
      OutsideConcat(Range(a, cut - 1), Range(cut, b), lo, hi);
      OutsideRange(a, cut - 1, lo, hi);
      OutsideRange(cut, b, lo, hi);
    } else {
      OutsideRange(a, b, lo, hi);
    }
  }

  /** Removing a trailing block [lo, hi] with hi >= b from the range [a, b] leaves [a, min(b, lo - 1)]. */
  lemma OutsideRangeSuffix(a: int, b: int, lo: int, hi: int)
    requires hi >= b && lo >= a
    ensures Outside(Range(a, b), lo, hi) == Range(a, if lo - 1 < b then lo - 1 else b)
  {
    var m := if lo - 1 < b then lo - 1 else b;
    if a <= b && m < b {
      RangeConcat(a, m, b);
      OutsideConcat(Range(a, m), Range(m + 1, b), lo, hi);
      OutsideRange(a, m, lo, hi);
      OutsideRange(m + 1, b, lo, hi);
    } else {
      OutsideRange(a, b, lo, hi);
    }
  }

  /**
    Scrolling forward: the shown range [b, m] is extended by [m + 1, t] and
    then every value in [lo, n - 1] is removed, with lo <= b <= n; what is
    left is [n, t].  Either the range grows (m <= t) or everything shown and
    added lies before n.  The extended range is [b, max(m, t)], each value once.
  */
  lemma ExtendThenTrimFront(b: int, m: int, t: int, lo: int, n: int)
    requires lo <= b <= m + 1 && b <= n
    requires m <= t || (m < n && t < n)
    ensures Outside(Range(b, m) + Range(m + 1, t), lo, n - 1) == Range(n, t)
    ensures NoDuplicates(Range(b, m) + Range(m + 1, t))
    ensures Range(b, m) + Range(m + 1, t) == Range(b, if m <= t then t else m)
  {
    AdjacentRangesNoDuplicates(b, m, t);
    if m <= t {
      RangeConcat(b, m, t);
      OutsideRangePrefix(b, t, lo, n - 1);
    } else {
      assert Range(m + 1, t) == [];
      assert Range(b, m) + Range(m + 1, t) == Range(b, m);
      OutsideRangePrefix(b, m, lo, n - 1);
    }
  }

  /**
    Scrolling back: the shown range [f, m] is extended at the front by
    [n, f - 1] and then every value in [t + 1, m] is removed; what is left
    is [n, t].  The extended range is [n, m], each value once.
  */
  lemma ExtendThenTrimBack(n: int, f: int, m: int, t: int)
    requires n <= f <= m + 1 && n <= t + 1 && t <= m
    ensures Outside(Range(n, f - 1) + Range(f, m), t + 1, m) == Range(n, t)
    ensures NoDuplicates(Range(n, f - 1) + Range(f, m)) && Range(n, f - 1) + Range(f, m) == Range(n, m)
  {
    AdjacentRangesNoDuplicates(n, f - 1, m);
    RangeConcat(n, f - 1, m);
    OutsideRangeSuffix(n, m, t + 1, m);
  }

  /** The tail of a duplicate-free sequence is duplicate-free and does not hold the head. */
  lemma NoDuplicatesTail<T>(s: seq<T>)
    requires NoDuplicates(s) && s != []
    ensures NoDuplicates(s[1..]) && s[0] !in s[1..]
  {
    forall a, b | 0 <= a < b < |s[1..]| ensures s[1..][a] != s[1..][b] {
      assert s[1..][a] == s[a + 1] && s[1..][b] == s[b + 1];
    }
  }

  /**
    The elements of xs whose paired value in rows lies outside [lo, hi], in
    their original order: when xs[k] is the cell of row rows[k], the cells
    left after the rows [lo, hi] are released.
  */
  function Keep<T>(xs: seq<T>, rows: seq<int>, lo: int, hi: int): (r: seq<T>)
    requires |xs| == |rows|
    ensures |r| == |Outside(rows, lo, hi)|
  {
    if xs == [] then []
    else (if lo <= rows[0] <= hi then [] else [xs[0]]) + Keep(xs[1..], rows[1..], lo, hi)
  }

  /** An element whose paired value lies outside [lo, hi] is kept. */
  lemma {:induction false} KeepKeeps<T>(xs: seq<T>, rows: seq<int>, lo: int, hi: int, k: int)
    requires |xs| == |rows| && 0 <= k < |xs| && !(lo <= rows[k] <= hi)
    ensures xs[k] in Keep(xs, rows, lo, hi)
  {
    if k > 0 {
      KeepKeeps(xs[1..], rows[1..], lo, hi, k - 1);
    }
  }

  /**
    Keep takes out exactly the elements whose paired value lies in
    [lo, hi]: on distinct elements, xs[k] is kept if and only if rows[k] is
    outside [lo, hi], and nothing else is kept.
  */
  lemma {:induction false} KeepMembers<T>(xs: seq<T>, rows: seq<int>, lo: int, hi: int)
    requires |xs| == |rows| && NoDuplicates(xs)
    ensures forall k :: 0 <= k < |xs| ==> (xs[k] in Keep(xs, rows, lo, hi) <==> !(lo <= rows[k] <= hi))
    ensures forall y :: y in Keep(xs, rows, lo, hi) ==> y in xs
  {
    if xs != [] {
      NoDuplicatesTail(xs);
      KeepMembers(xs[1..], rows[1..], lo, hi);
      var tail := Keep(xs[1..], rows[1..], lo, hi);
      var head := if lo <= rows[0] <= hi then [] else [xs[0]];
      assert Keep(xs, rows, lo, hi) == head + tail;
      forall k | 0 <= k < |xs| ensures xs[k] in head + tail <==> !(lo <= rows[k] <= hi) {
        if k > 0 {
          assert xs[k] == xs[1..][k - 1] && rows[k] == rows[1..][k - 1];
          assert xs[k] != xs[0];
        }
      }
      forall y | y in head + tail ensures y in xs {
        if y in tail {
          assert y in xs[1..];
        }
      }
    }
  }

  /** Keep over an empty interval keeps everything. */
  lemma {:induction false} KeepEmptyInterval<T>(xs: seq<T>, rows: seq<int>, lo: int, hi: int)
    requires |xs| == |rows| && hi < lo
    ensures Keep(xs, rows, lo, hi) == xs
  {
    if xs != [] {
      KeepEmptyInterval(xs[1..], rows[1..], lo, hi);
      assert xs == [xs[0]] + xs[1..];
    }
  }

  /** Keep distributes over concatenation of paired sequences. */
  lemma {:induction false} KeepConcat<T>(xs: seq<T>, ys: seq<T>, rs: seq<int>, ss: seq<int>, lo: int, hi: int)
    requires |xs| == |rs| && |ys| == |ss|
    ensures Keep(xs + ys, rs + ss, lo, hi) == Keep(xs, rs, lo, hi) + Keep(ys, ss, lo, hi)
  {
    if xs != [] {
      assert (xs + ys)[0] == xs[0] && (rs + ss)[0] == rs[0];
      assert (xs + ys)[1..] == xs[1..] + ys && (rs + ss)[1..] == rs[1..] + ss;
      KeepConcat(xs[1..], ys, rs[1..], ss, lo, hi);
    } else {
      assert xs + ys == ys && rs + ss == ss;
    }
  }

  /** Widening [lo, i - 1] by i takes out of what was kept the elements paired with i. */
  lemma {:induction false} KeepStep<T>(xs: seq<T>, rows: seq<int>, lo: int, i: int)
    requires |xs| == |rows| && lo <= i
    ensures Keep(xs, rows, lo, i) == Keep(Keep(xs, rows, lo, i - 1), Outside(rows, lo, i - 1), i, i)
  {
    if xs != [] {
      KeepStep(xs[1..], rows[1..], lo, i);
      var k, o := Keep(xs[1..], rows[1..], lo, i - 1), Outside(rows[1..], lo, i - 1);
      if !(lo <= rows[0] <= i - 1) {
        assert Keep(xs, rows, lo, i - 1) == [xs[0]] + k && Outside(rows, lo, i - 1) == [rows[0]] + o;
        assert ([xs[0]] + k)[0] == xs[0] && ([xs[0]] + k)[1..] == k;
        assert ([rows[0]] + o)[0] == rows[0] && ([rows[0]] + o)[1..] == o;
        assert Keep([xs[0]] + k, [rows[0]] + o, i, i) == (if rows[0] == i then [] else [xs[0]]) + Keep(k, o, i, i);
        assert Keep(xs, rows, lo, i) == (if rows[0] == i then [] else [xs[0]]) + Keep(xs[1..], rows[1..], lo, i);
      } else {
        assert Keep(xs, rows, lo, i - 1) == k && Outside(rows, lo, i - 1) == o;
        assert Keep(xs, rows, lo, i) == Keep(xs[1..], rows[1..], lo, i);
      }
    }
  }

  /** A value that is not a row releases nothing. */
  lemma {:induction false} KeepAbsent<T>(xs: seq<T>, rows: seq<int>, i: int)
    requires |xs| == |rows| && i !in rows
    ensures Keep(xs, rows, i, i) == xs
  {
    if xs != [] {
      assert i !in rows[1..] by {
        assert forall y :: y in rows[1..] ==> y in rows;
      }
      KeepAbsent(xs[1..], rows[1..], i);
      assert xs == [xs[0]] + xs[1..];
    }
  }

  /** On duplicate-free sequences, releasing the one row i takes out the element paired with it, as RemoveFirst does. */
  lemma {:induction false} KeepOne<T>(xs: seq<T>, rows: seq<int>, i: int, k: int)
    requires |xs| == |rows| && NoDuplicates(xs) && NoDuplicates(rows) && 0 <= k < |xs| && rows[k] == i
    ensures Keep(xs, rows, i, i) == RemoveFirst(xs, xs[k])
  {
    NoDuplicatesTail(xs);
    NoDuplicatesTail(rows);
    if k == 0 {
      KeepAbsent(xs[1..], rows[1..], i);
    } else {
      assert xs[1..][k - 1] == xs[k] && rows[1..][k - 1] == rows[k];
      KeepOne(xs[1..], rows[1..], i, k - 1);
    }
  }
}
