/** Sequence facts shared by the row filters, the duplicate removal, the
    mode computation and the digit stripping of phone numbers. */
module Seqs {

  /** Number of occurrences of `x` in `s`. */
  function Count<T(==)>(s: seq<T>, x: T): (n: nat)
    ensures n <= |s|
    ensures n > 0 <==> x in s
  {
    if |s| == 0 then 0
    else (if s[0] == x then 1 else 0) + Count(s[1..], x)
  }

  lemma {:induction false} CountAppend<T>(a: seq<T>, b: seq<T>, x: T)
    ensures Count(a + b, x) == Count(a, x) + Count(b, x)
  {
    if |a| == 0 {
      assert a + b == b;
    } else {
      assert (a + b)[1..] == a[1..] + b;
      CountAppend(a[1..], b, x);
    }
  }

  /** If every position holding `x` in `a` also holds `x` in `b`, then `b`
      has at least as many `x` as `a`. */
  lemma {:induction false} CountMonotone<T>(a: seq<T>, b: seq<T>, x: T)
    requires |a| == |b|
    requires forall i :: 0 <= i < |a| && a[i] == x ==> b[i] == x
    ensures Count(a, x) <= Count(b, x)
  {
    if |a| > 0 {
      CountMonotone(a[1..], b[1..], x);
    }
  }

  /** Two equally long sequences holding `x` at the same positions hold it
      equally often. */
  lemma CountSamePositions<T>(a: seq<T>, b: seq<T>, x: T)
    requires |a| == |b|
    requires forall i :: 0 <= i < |a| ==> (a[i] == x <==> b[i] == x)
    ensures Count(a, x) == Count(b, x)
  {
    CountMonotone(a, b, x);
    CountMonotone(b, a, x);
  }

  /** The elements of `s` satisfying `keep`, in their original order. */
  function Filter<T(==)>(s: seq<T>, keep: T -> bool): (r: seq<T>)
    ensures |r| <= |s|
    ensures forall k :: 0 <= k < |r| ==> r[k] in s && keep(r[k])
    ensures forall k :: 0 <= k < |s| && keep(s[k]) ==> s[k] in r
  {
    if |s| == 0 then []
    else
      assert s == [s[0]] + s[1..];
      (if keep(s[0]) then [s[0]] else []) + Filter(s[1..], keep)
  }

  lemma {:induction false} FilterAppend<T>(a: seq<T>, b: seq<T>, keep: T -> bool)
    ensures Filter(a + b, keep) == Filter(a, keep) + Filter(b, keep)
  {
    if |a| == 0 {
      assert a + b == b;
    } else {
      assert (a + b)[0] == a[0];
      assert (a + b)[1..] == a[1..] + b;
      FilterAppend(a[1..], b, keep);
    }
  }

  /** Filtering keeps a sequence whole exactly when every element passes. */
  lemma {:induction false} FilterKeepsAll<T>(s: seq<T>, keep: T -> bool)
    ensures Filter(s, keep) == s <==> forall k :: 0 <= k < |s| ==> keep(s[k])
  {
    if |s| > 0 {
      FilterKeepsAll(s[1..], keep);
      if !keep(s[0]) {
        assert s[0] !in Filter(s, keep);
      }
    }
  }

  /** Filtering by `p` and then by `q` keeps what one filter by both keeps. */
  lemma {:induction false} FilterTwice<T>(s: seq<T>, p: T -> bool, q: T -> bool, pq: T -> bool)
    requires forall x :: pq(x) == (p(x) && q(x))
    ensures Filter(Filter(s, p), q) == Filter(s, pq)
  {
    if |s| > 0 {
      FilterTwice(s[1..], p, q, pq);
      assert Filter(s, pq) == (if pq(s[0]) then [s[0]] else []) + Filter(s[1..], pq);
      if p(s[0]) {
        assert Filter(s, p) == [s[0]] + Filter(s[1..], p);
        assert Filter([s[0]], q) == (if q(s[0]) then [s[0]] else []) + Filter([s[0]][1..], q);
        assert [s[0]][1..] == [];
        FilterAppend([s[0]], Filter(s[1..], p), q);
      } else {
        assert Filter(s, p) == Filter(s[1..], p);
      }
    }
  }

  ghost predicate Increasing(idx: seq<int>) {
    forall a, b :: 0 <= a < b < |idx| ==> idx[a] < idx[b]
  }

  /** `r` is the subsequence of `s` taken at the increasing positions `idx`. */
  ghost predicate PicksFrom<T>(r: seq<T>, s: seq<T>, idx: seq<int>) {
    && |idx| == |r|
    && Increasing(idx)
    && forall k :: 0 <= k < |idx| ==> 0 <= idx[k] < |s| && r[k] == s[idx[k]]
  }

  function Shift(idx: seq<int>): (r: seq<int>)
    ensures |r| == |idx|
    ensures forall k :: 0 <= k < |idx| ==> r[k] == idx[k] + 1
  {
    seq(|idx|, k requires 0 <= k < |idx| => idx[k] + 1)
  }

  /** Positions into the tail of `s` are positions into `s`, one further on. */
  lemma PicksShift<T>(r: seq<T>, s: seq<T>, idx: seq<int>)
    requires |s| > 0
    requires PicksFrom(r, s[1..], idx)
    ensures PicksFrom(r, s, Shift(idx))
    ensures forall i :: 1 <= i < |s| ==> (i in Shift(idx) <==> i - 1 in idx)
    ensures 0 !in Shift(idx)
  {
    var sh := Shift(idx);
    forall i | 1 <= i < |s| && i - 1 in idx
      ensures i in sh
    {
      var k :| 0 <= k < |idx| && idx[k] == i - 1;
      assert sh[k] == i;
    }
  }

  lemma PicksCons<T>(r: seq<T>, s: seq<T>, idx: seq<int>)
    requires |s| > 0
    requires PicksFrom(r, s, idx)
    requires 0 !in idx
    ensures PicksFrom([s[0]] + r, s, [0] + idx)
  {
    var r', idx' := [s[0]] + r, [0] + idx;
    forall a, b | 0 <= a < b < |idx'|
      ensures idx'[a] < idx'[b]
    {
      if a > 0 {
        assert idx'[a] == idx[a - 1] && idx'[b] == idx[b - 1];
      } else {
        assert idx[b - 1] in idx;
      }
    }
    forall k | 0 <= k < |idx'|
      ensures 0 <= idx'[k] < |s| && r'[k] == s[idx'[k]]
    {
      if k > 0 {
        assert idx'[k] == idx[k - 1] && r'[k] == r[k - 1];
      }
    }
  }

  /** `Filter` is order preserving and drops exactly the failing positions. */
  lemma {:induction false} FilterPicks<T>(s: seq<T>, keep: T -> bool) returns (idx: seq<int>)
    ensures PicksFrom(Filter(s, keep), s, idx)
    ensures forall i :: 0 <= i < |s| ==> (i in idx <==> keep(s[i]))
  {
    if |s| == 0 {
      return [];
    }
    var tail := Filter(s[1..], keep);
    var rest := FilterPicks(s[1..], keep);
    PicksShift(tail, s, rest);
    if keep(s[0]) {
      PicksCons(tail, s, Shift(rest));
      idx := [0] + Shift(rest);
      assert Filter(s, keep) == [s[0]] + tail;
    } else {
      idx := Shift(rest);
      assert Filter(s, keep) == tail;
    }
    forall i | 1 <= i < |s|
      ensures i in idx <==> keep(s[i])
    {
      assert s[1..][i - 1] == s[i];
    }
  }

  ghost predicate Distinct<T>(s: seq<T>) {
    forall i, j :: 0 <= i < j < |s| ==> s[i] != s[j]
  }

  /** A subsequence of a duplicate-free sequence is duplicate-free. */
  lemma PicksKeepDistinct<T>(r: seq<T>, s: seq<T>, idx: seq<int>)
    requires PicksFrom(r, s, idx)
    requires Distinct(s)
    ensures Distinct(r)
  {
    forall i, j | 0 <= i < j < |r|
      ensures r[i] != r[j]
    {
      assert idx[i] < idx[j];
    }
  }

  /** `s` with every element after its first occurrence removed. */
  function Dedup<T(==)>(s: seq<T>): (r: seq<T>)
    ensures Distinct(r)
    ensures forall k :: 0 <= k < |r| ==> r[k] in s
    ensures forall k :: 0 <= k < |s| ==> s[k] in r
  {
    if |s| == 0 then []
    else
      var init := s[..|s| - 1];
      var last := s[|s| - 1];
      assert s == init + [last];
      var r := Dedup(init);
      if last in init then r else r + [last]
  }

  /** Positions into a prefix of `s` are positions into `s`, all below the
      prefix length; one more position past them may be appended. */
  lemma PicksWiden<T>(r: seq<T>, s: seq<T>, n: nat, idx: seq<int>)
    requires n < |s|
    requires PicksFrom(r, s[..n], idx)
    ensures PicksFrom(r, s, idx)
    ensures PicksFrom(r + [s[n]], s, idx + [n])
    ensures n !in idx
  {
    var r', idx' := r + [s[n]], idx + [n];
    forall a, b | 0 <= a < b < |idx'|
      ensures idx'[a] < idx'[b]
    {
      if b < |idx| {
        assert idx'[a] == idx[a] && idx'[b] == idx[b];
      } else {
        assert idx'[a] == idx[a];
      }
    }
    forall k | 0 <= k < |idx'|
      ensures 0 <= idx'[k] < |s| && r'[k] == s[idx'[k]]
    {
      if k < |idx| {
        assert idx'[k] == idx[k] && r'[k] == r[k];
        assert s[..n][idx[k]] == s[idx[k]];
      }
    }
  }

  /** Position `i` holds the first occurrence of its value. */
  predicate FirstAt<T(==)>(s: seq<T>, i: int)
    requires 0 <= i < |s|
  {
    s[i] !in s[..i]
  }

  /** The first-occurrence test on positions below `n` reads the same in
      `s` as in its prefix of length `n`. */
  lemma FirstsInPrefix<T>(s: seq<T>, n: nat, prev: seq<int>, idx: seq<int>)
    requires n <= |s|
    requires forall i :: 0 <= i < n ==> (i in prev <==> FirstAt(s[..n], i))
    requires forall i :: 0 <= i < n ==> (i in idx <==> i in prev)
    ensures forall i :: 0 <= i < n ==> (i in idx <==> FirstAt(s, i))
  {
    forall i | 0 <= i < n
      ensures i in idx <==> FirstAt(s, i)
    {
      assert s[..n][i] == s[i] && s[..n][..i] == s[..i];
    }
  }

  /** One step of `Dedup`: the last element is kept exactly when it is new. */
  lemma DedupLast<T>(s: seq<T>)
    requires |s| > 0
    ensures Dedup(s) == if FirstAt(s, |s| - 1) then Dedup(s[..|s| - 1]) + [s[|s| - 1]]
                        else Dedup(s[..|s| - 1])
  {
  }

  /** `Dedup` keeps, in order, exactly the positions whose value has not
      been seen earlier. */
  lemma {:induction false} DedupPicks<T>(s: seq<T>) returns (idx: seq<int>)
    ensures PicksFrom(Dedup(s), s, idx)
    ensures forall i :: 0 <= i < |s| ==> (i in idx <==> FirstAt(s, i))
  {
    if |s| == 0 {
      return [];
    }
    var n := |s| - 1;
    var prev := DedupPicks(s[..n]);
    var r := Dedup(s[..n]);
    PicksWiden(r, s, n, prev);
    DedupLast(s);
    if FirstAt(s, n) {
      idx := prev + [n];
      assert Dedup(s) == r + [s[n]];
      assert n in idx;
    } else {
      idx := prev;
      assert Dedup(s) == r;
    }
    FirstsInPrefix(s, n, prev, idx);
  }
}
