/** Sequence helpers shared by every part of the CVRP model: Python's
    `range`, list flattening, sums, filtering, distinctness, and the small
    facts about them that the solver proofs lean on. */
module SeqUtil {

  /** The conventional optional value, used where the source returns None. */
  datatype Option<+T> = None | Some(value: T)

  /** `range(lo, hi)`: lo, lo+1, ..., hi-1 (empty when hi <= lo). */
  function Range(lo: nat, hi: nat): (r: seq<nat>)
    ensures |r| == if lo <= hi then hi - lo else 0
    ensures forall k :: 0 <= k < |r| ==> r[k] == lo + k
    decreases hi - lo
  {
    if lo >= hi then [] else [lo] + Range(lo + 1, hi)
  }

  /** Every value of the range occurs exactly once, nothing else occurs. */
  lemma {:induction false} RangeCount(lo: nat, hi: nat, c: nat)
    ensures multiset(Range(lo, hi))[c] == if lo <= c < hi then 1 else 0
    decreases hi - lo
  {
    if lo < hi {
      var rest := Range(lo + 1, hi);
      var first: seq<nat> := [lo];
      RangeCount(lo + 1, hi, c);
      assert Range(lo, hi) == first + rest;
      var whole, head, tail: multiset<nat> := multiset(Range(lo, hi)), multiset(first), multiset(rest);
      assert whole == head + tail;
      assert head[c] == if c == lo then 1 else 0;
    }
  }

  lemma RangeMembership(lo: nat, hi: nat, c: nat)
    ensures c in Range(lo, hi) <==> lo <= c < hi
  {
    RangeCount(lo, hi, c);
  }

  /** A sequence with no repeated element. */
  ghost predicate Distinct<T>(s: seq<T>) {
    forall v | v in s :: multiset(s)[v] == 1
  }

  /** A prefix one longer is the shorter prefix and the next element. */
  lemma TakeSnoc<T>(s: seq<T>, k: nat)
    requires 0 < k <= |s|
    ensures s[..k] == s[..k - 1] + [s[k - 1]]
  {
  }

  /** Appending the next element of `s` extends the prefix taken after `pre`. */
  lemma PrefixSnoc<T>(pre: seq<T>, s: seq<T>, k: nat)
    requires k < |s|
    ensures (pre + s[..k]) + [s[k]] == pre + s[..k + 1]
  {
    assert s[..k + 1] == s[..k] + [s[k]];
  }

  lemma ConcatAssoc<T>(x: seq<T>, y: seq<T>, z: seq<T>)
    ensures (x + y) + z == x + (y + z)
  {
  }

  /** Concatenation of a list of lists, left to right. */
  function Flatten<T>(xss: seq<seq<T>>): seq<T> {
    FlattenFirst(xss, |xss|)
  }

  /** The first k lists, concatenated. */
  function FlattenFirst<T>(xss: seq<seq<T>>, k: nat): seq<T>
    requires k <= |xss|
  {
    if k == 0 then [] else FlattenFirst(xss, k - 1) + xss[k - 1]
  }

  lemma {:induction false} FlattenFirstPrefix<T>(a: seq<seq<T>>, b: seq<seq<T>>, k: nat)
    requires k <= |a|
    ensures FlattenFirst(a + b, k) == FlattenFirst(a, k)
  {
    if k > 0 {
      FlattenFirstPrefix(a, b, k - 1);
      assert (a + b)[k - 1] == a[k - 1];
    }
  }

  lemma {:induction false} FlattenFirstSuffix<T>(a: seq<seq<T>>, b: seq<seq<T>>, k: nat)
    requires k <= |b|
    ensures FlattenFirst(a + b, |a| + k) == Flatten(a) + FlattenFirst(b, k)
  {
    if k == 0 {
      FlattenFirstPrefix(a, b, |a|);
    } else {
      FlattenFirstSuffix(a, b, k - 1);
      assert (a + b)[|a| + k - 1] == b[k - 1];
      ConcatAssoc(Flatten(a), FlattenFirst(b, k - 1), b[k - 1]);
    }
  }

  lemma FlattenSingle<T>(xs: seq<T>)
    ensures Flatten([xs]) == xs
  {
    assert FlattenFirst([xs], 1) == FlattenFirst([xs], 0) + [xs][0];
  }

  lemma FlattenSnoc<T>(xss: seq<seq<T>>, ys: seq<T>)
    ensures Flatten(xss + [ys]) == Flatten(xss) + ys
  {
    FlattenFirstSuffix(xss, [ys], 1);
  }

  lemma FlattenConcat<T>(a: seq<seq<T>>, b: seq<seq<T>>)
    ensures Flatten(a + b) == Flatten(a) + Flatten(b)
  {
    FlattenFirstSuffix(a, b, |b|);
  }

  /** Every element of every list occurs in the concatenation. */
  lemma FlattenMember<T>(xss: seq<seq<T>>, r: nat, i: nat)
    requires r < |xss| && i < |xss[r]|
    ensures xss[r][i] in Flatten(xss)
  {
    assert xss == (xss[..r] + [xss[r]]) + xss[r + 1..];
    FlattenConcat(xss[..r] + [xss[r]], xss[r + 1..]);
    FlattenSnoc(xss[..r], xss[r]);
  }

  /** Sum of a list of reals (Python's `sum`). */
  function SumReal(s: seq<real>): real {
    if |s| == 0 then 0.0 else SumReal(s[..|s| - 1]) + s[|s| - 1]
  }

  lemma SumRealSnoc(s: seq<real>, x: real)
    ensures SumReal(s + [x]) == SumReal(s) + x
  {
    assert (s + [x])[..|s|] == s;
  }

  lemma SumRealPrefixStep(s: seq<real>, k: nat)
    requires k < |s|
    ensures SumReal(s[..k + 1]) == SumReal(s[..k]) + s[k]
  {
    assert s[..k + 1][..k] == s[..k];
  }

  lemma {:induction false} SumRealNonNegative(s: seq<real>)
    requires forall k :: 0 <= k < |s| ==> s[k] >= 0.0
    ensures SumReal(s) >= 0.0
    decreases |s|
  {
    if |s| > 0 {
      SumRealNonNegative(s[..|s| - 1]);
    }
  }

  /** Non-negative reals that sum to zero are all zero. */
  lemma {:induction false} SumRealZero(s: seq<real>)
    requires forall k :: 0 <= k < |s| ==> s[k] >= 0.0
    requires SumReal(s) <= 0.0
    ensures forall k :: 0 <= k < |s| ==> s[k] == 0.0
    decreases |s|
  {
    if |s| > 0 {
      SumRealNonNegative(s[..|s| - 1]);
      SumRealZero(s[..|s| - 1]);
      forall k | 0 <= k < |s| - 1
        ensures s[k] == 0.0
      {
        assert s[k] == s[..|s| - 1][k];
      }
    }
  }

  /** Dividing every element by c divides the sum by c. */
  lemma {:induction false} SumRealDivide(s: seq<real>, c: real)
    requires c != 0.0
    ensures SumReal(seq(|s|, k requires 0 <= k < |s| => s[k] / c)) == SumReal(s) / c
    decreases |s|
  {
    var d := seq(|s|, k requires 0 <= k < |s| => s[k] / c);
    if |s| > 0 {
      var s' := s[..|s| - 1];
      SumRealDivide(s', c);
      assert d[..|s| - 1] == seq(|s'|, k requires 0 <= k < |s'| => s'[k] / c);
      assert SumReal(d) == SumReal(d[..|s| - 1]) + s[|s| - 1] / c;
      DivideAdd(SumReal(s'), s[|s| - 1], c);
    }
  }

  lemma DivideAdd(a: real, b: real, c: real)
    requires c != 0.0
    ensures a / c + b / c == (a + b) / c
  {
  }

  /** m copies of c sum to m * c. */
  lemma {:induction false} SumRealConstant(m: nat, c: real)
    ensures SumReal(seq(m, k requires 0 <= k < m => c)) == (m as real) * c
    decreases m
  {
    if m > 0 {
      SumRealConstant(m - 1, c);
      assert seq(m, k requires 0 <= k < m => c)[..m - 1] == seq(m - 1, k requires 0 <= k < m - 1 => c);
    }
  }

  /** The elements of `s` that `keep` accepts, in their original order. */
  function Filter<T>(s: seq<T>, keep: T -> bool): (r: seq<T>)
    ensures |r| <= |s|
    ensures forall v | v in r :: v in s && keep(v)
    ensures forall v | v in s && keep(v) :: v in r
  {
    if |s| == 0 then []
    else Filter(s[..|s| - 1], keep) + (if keep(s[|s| - 1]) then [s[|s| - 1]] else [])
  }

  lemma {:induction false} FilterConcat<T>(a: seq<T>, b: seq<T>, keep: T -> bool)
    ensures Filter(a + b, keep) == Filter(a, keep) + Filter(b, keep)
    decreases |b|
  {
    if |b| == 0 {
      assert a + b == a;
    } else {
      var b' := b[..|b| - 1];
      assert (a + b)[..|a + b| - 1] == a + b';
      FilterConcat(a, b', keep);
    }
  }

  /** In a sequence without repeats no element occurs before its own position. */
  lemma DistinctNotEarlier<T>(s: seq<T>, j: nat)
    requires Distinct(s) && j < |s|
    ensures s[j] !in s[..j]
  {
    assert s == s[..j] + s[j..];
    assert s[j..][0] == s[j];
    assert multiset(s)[s[j]] == multiset(s[..j])[s[j]] + multiset(s[j..])[s[j]];
  }

  /** Filtering keeps exactly the accepted copies of each value. */
  lemma {:induction false} FilterCount<T>(s: seq<T>, keep: T -> bool, v: T)
    ensures multiset(Filter(s, keep))[v] == if keep(v) then multiset(s)[v] else 0
    decreases |s|
  {
    if |s| > 0 {
      var s' := s[..|s| - 1];
      FilterCount(s', keep, v);
      assert s == s' + [s[|s| - 1]];
    }
  }

  /** The elements among the first k of `s` that are not in `seg`, in order. */
  function Kept<T(==)>(s: seq<T>, seg: seq<T>, k: nat): seq<T>
    requires k <= |s|
  {
    if k == 0 then [] else if s[k - 1] in seg then Kept(s, seg, k - 1) else Kept(s, seg, k - 1) + [s[k - 1]]
  }

  /** An element of `seg` is never kept. */
  lemma {:induction false} KeptOmits<T>(s: seq<T>, seg: seq<T>, k: nat, v: T)
    requires k <= |s| && v in seg
    ensures v !in Kept(s, seg, k)
  {
    if k > 0 {
      KeptOmits(s, seg, k - 1, v);
    }
  }

  /** The elements among the first k of `s` that are in `seg`: what `Kept` leaves out. */
  ghost function Dropped<T>(s: seq<T>, seg: seq<T>, k: nat): seq<T>
    requires k <= |s|
  {
    if k == 0 then [] else if s[k - 1] in seg then Dropped(s, seg, k - 1) + [s[k - 1]] else Dropped(s, seg, k - 1)
  }

  /** Appending x to one part of a split appends it to the whole. */
  lemma SplitSnoc<T>(a: seq<T>, b: seq<T>, s: seq<T>, x: T)
    requires multiset(a) + multiset(b) == multiset(s)
    ensures multiset(a) + multiset(b + [x]) == multiset(s + [x])
    ensures multiset(b + [x]) + multiset(a) == multiset(s + [x])
  {
  }

  /** What is kept and what is dropped are, together, the first k elements. */
  lemma {:induction false} KeptSplits<T>(s: seq<T>, seg: seq<T>, k: nat)
    requires k <= |s|
    ensures multiset(Kept(s, seg, k)) + multiset(Dropped(s, seg, k)) == multiset(s[..k])
  {
    if k > 0 {
      KeptSplits(s, seg, k - 1);
      TakeSnoc(s, k);
      var kept, dropped := Kept(s, seg, k - 1), Dropped(s, seg, k - 1);
      if s[k - 1] in seg {
        SplitSnoc(kept, dropped, s[..k - 1], s[k - 1]);
      } else {
        SplitSnoc(dropped, kept, s[..k - 1], s[k - 1]);
      }
    }
  }

  lemma {:induction false} DroppedWithin<T>(s: seq<T>, seg: seq<T>, k: nat, v: T)
    requires k <= |s| && v !in seg
    ensures v !in Dropped(s, seg, k)
  {
    if k > 0 {
      DroppedWithin(s, seg, k - 1, v);
    }
  }

  /** An element outside `seg` is kept as often as it occurs among the first k. */
  lemma KeptCount<T>(s: seq<T>, seg: seq<T>, k: nat, v: T)
    requires k <= |s| && v !in seg
    ensures multiset(Kept(s, seg, k))[v] == multiset(s[..k])[v]
  {
    KeptSplits(s, seg, k);
    DroppedWithin(s, seg, k, v);
  }

  /** Reading further only appends to what was kept. */
  lemma {:induction false} KeptPrefix<T>(s: seq<T>, seg: seq<T>, k: nat, m: nat)
    requires k <= m <= |s|
    ensures |Kept(s, seg, k)| <= |Kept(s, seg, m)| && Kept(s, seg, m)[..|Kept(s, seg, k)|] == Kept(s, seg, k)
    decreases m - k
  {
    if k < m {
      KeptPrefix(s, seg, k, m - 1);
      var short, long := Kept(s, seg, k), Kept(s, seg, m - 1);
      assert Kept(s, seg, m)[..|long|] == long;
      assert long[..|short|] == short;
    }
  }

  /** The next element of `s` outside `seg` is the next one kept. */
  lemma KeptNext<T>(s: seq<T>, seg: seq<T>, j: nat, t: nat)
    requires j < |s| && t <= |Kept(s, seg, |s|)| && Kept(s, seg, j) == Kept(s, seg, |s|)[..t] && s[j] !in seg
    ensures t < |Kept(s, seg, |s|)| && Kept(s, seg, |s|)[t] == s[j]
    ensures Kept(s, seg, j + 1) == Kept(s, seg, |s|)[..t + 1]
  {
    var rest, next := Kept(s, seg, |s|), Kept(s, seg, j + 1);
    assert next == rest[..t] + [s[j]];
    KeptPrefix(s, seg, j + 1, |s|);
    assert rest[..|next|] == next;
    assert next[t] == s[j];
  }

  /** The elements of the pairs in order: both of the first pair, then both of the next. */
  function Interleave<T>(ps: seq<(T, T)>): (r: seq<T>)
    ensures |r| == 2 * |ps|
  {
    if |ps| == 0 then [] else Interleave(ps[..|ps| - 1]) + [ps[|ps| - 1].0, ps[|ps| - 1].1]
  }

  lemma {:induction false} InterleaveAt<T>(ps: seq<(T, T)>, m: nat)
    requires m < |ps|
    ensures Interleave(ps)[2 * m] == ps[m].0 && Interleave(ps)[2 * m + 1] == ps[m].1
    decreases |ps|
  {
    if m < |ps| - 1 {
      InterleaveAt(ps[..|ps| - 1], m);
    }
  }

  /** Removing the matching element from both sides of a permutation keeps a permutation. */
  lemma MultisetRemoveAt<T>(a: seq<T>, x: T, b: seq<T>, i: nat)
    requires multiset(a + [x]) == multiset(b) && i < |b| && b[i] == x
    ensures multiset(b[..i] + b[i + 1..]) == multiset(a)
  {
    assert b == b[..i] + [x] + b[i + 1..];
    assert multiset(b) == multiset(b[..i]) + multiset{x} + multiset(b[i + 1..]);
    var b' := b[..i] + b[i + 1..];
    assert multiset(b') == multiset(b[..i]) + multiset(b[i + 1..]);
    assert multiset(b') + multiset{x} == multiset(a) + multiset{x};
    forall v
      ensures multiset(b')[v] == multiset(a)[v]
    {
      assert (multiset(b') + multiset{x})[v] == (multiset(a) + multiset{x})[v];
    }
  }

  /** A non-increasing sequence, in the order given by `le`. */
  ghost predicate NonIncreasing<T>(s: seq<T>, le: (T, T) -> bool) {
    forall i, j :: 0 <= i <= j < |s| ==> le(s[j], s[i])
  }

  /** Python's `list.remove(x)`: drops the first occurrence of `x`. */
  function RemoveFirst<T(==)>(s: seq<T>, x: T): (r: seq<T>)
    requires x in s
    ensures multiset(r) == multiset(s) - multiset{x}
    ensures |r| == |s| - 1
  {
    assert s == [s[0]] + s[1..];
    if s[0] == x then s[1..]
    else [s[0]] + RemoveFirst(s[1..], x)
  }

  /** The present values of `os`, in order. */
  function Somes<T>(os: seq<Option<T>>): (r: seq<T>)
    ensures |r| <= |os|
    decreases |os|
  {
    if os == [] then []
    else Somes(os[..|os| - 1]) + (if os[|os| - 1].Some? then [os[|os| - 1].value] else [])
  }

  /** When every value is present, all of them come out. */
  lemma {:induction false} SomesAll<T>(os: seq<Option<T>>, xs: seq<T>)
    requires |os| == |xs| && forall i :: 0 <= i < |os| ==> os[i] == Some(xs[i])
    ensures Somes(os) == xs
    decreases |os|
  {
    if os != [] {
      var n := |os|;
      var init, prefix := os[..n - 1], xs[..n - 1];
      forall i | 0 <= i < n - 1 ensures init[i] == Some(prefix[i]) {
        assert init[i] == os[i] && prefix[i] == xs[i];
      }
      SomesAll(init, prefix);
      assert xs == prefix + [xs[n - 1]];
    }
  }

  /** All the values of `os`, when every one is present. */
  function AllSome<T>(os: seq<Option<T>>): (r: Option<seq<T>>)
    ensures r.Some? ==> |r.value| == |os| && forall i :: 0 <= i < |os| ==> os[i] == Some(r.value[i])
    ensures r.None? <==> exists i :: 0 <= i < |os| && os[i].None?
    decreases |os|
  {
    if os == [] then Some([])
    else
      var init := AllSome(os[..|os| - 1]);
      var last := os[|os| - 1];
      if init.None? then
        var i :| 0 <= i < |os| - 1 && os[..|os| - 1][i].None?;
        assert os[..|os| - 1][i] == os[i];
        None
      else if last.None? then None
      else
        var r := init.value + [last.value];
        assert forall i :: 0 <= i < |os| - 1 ==> os[..|os| - 1][i] == os[i];
        Some(r)
  }
}
