/** `click_qsort`: Bentley and McIlroy's three-way quicksort with an explicit stack.

    The comparator is any total function of two elements.  Nothing is assumed of it for
    termination, for the permutation property or for the stack bound; only sortedness asks
    it to be a total preorder. */
module Sorting {
  import Integers

  // ----- Comparators and orders

  /** The comparator treats `x`, `y`, `z` as an order would: swapping the arguments flips the
      sign, and "not after" composes. */
  ghost predicate Orderly<T>(cmp: (T, T) -> int, x: T, y: T, z: T) {
    && (cmp(x, y) <= 0 <==> cmp(y, x) >= 0)
    && (cmp(x, y) <= 0 && cmp(y, z) <= 0 ==> cmp(x, z) <= 0)
  }

  ghost predicate TotalPreorder<T(!new)>(cmp: (T, T) -> int) {
    forall x, y, z :: Orderly(cmp, x, y, z)
  }

  lemma Transitive<T(!new)>(cmp: (T, T) -> int, x: T, y: T, z: T)
    requires TotalPreorder(cmp) && cmp(x, y) <= 0 && cmp(y, z) <= 0
    ensures cmp(x, z) <= 0
  {
    assert Orderly(cmp, x, y, z);
  }

  lemma Flip<T(!new)>(cmp: (T, T) -> int, x: T, y: T)
    requires TotalPreorder(cmp)
    ensures cmp(x, y) <= 0 <==> cmp(y, x) >= 0
    ensures cmp(y, x) <= 0 <==> cmp(x, y) >= 0
  {
    assert Orderly(cmp, x, y, x) && Orderly(cmp, y, x, y);
  }

  ghost predicate SortedBy<T(!new)>(s: seq<T>, cmp: (T, T) -> int) {
    forall i, j :: 0 <= i < j < |s| ==> cmp(s[i], s[j]) <= 0
  }

  ghost predicate Distinct<T>(s: seq<T>) {
    forall i, j :: 0 <= i < j < |s| ==> s[i] != s[j]
  }

  /** `t` is `s` with the elements of positions `[lo, hi)` permuted among themselves. */
  ghost predicate Rearranged<T>(s: seq<T>, t: seq<T>, lo: nat, hi: nat) {
    && lo <= hi <= |s| == |t|
    && s[..lo] == t[..lo]
    && s[hi..] == t[hi..]
    && multiset(s[lo..hi]) == multiset(t[lo..hi])
  }

  lemma RearrangedWiden<T>(s: seq<T>, t: seq<T>, lo: nat, hi: nat, lo': nat, hi': nat)
    requires Rearranged(s, t, lo, hi)
    requires lo' <= lo <= hi <= hi' <= |s|
    ensures Rearranged(s, t, lo', hi')
  {
    assert s[..lo'] == s[..lo][..lo'] && t[..lo'] == t[..lo][..lo'];
    assert s[hi'..] == s[hi..][hi' - hi..] && t[hi'..] == t[hi..][hi' - hi..];
    assert s[lo'..hi'] == s[..lo][lo'..] + s[lo..hi] + s[hi..][..hi' - hi];
    assert t[lo'..hi'] == t[..lo][lo'..] + t[lo..hi] + t[hi..][..hi' - hi];
  }

  lemma RearrangedRefl<T>(s: seq<T>, lo: nat, hi: nat)
    requires lo <= hi <= |s|
    ensures Rearranged(s, s, lo, hi)
  {
  }

  lemma RearrangedTrans<T>(s: seq<T>, t: seq<T>, u: seq<T>, lo: nat, hi: nat)
    requires Rearranged(s, t, lo, hi) && Rearranged(t, u, lo, hi)
    ensures Rearranged(s, u, lo, hi)
  {
  }

  /** Every element of a rearranged range was already somewhere in that range. */
  lemma RearrangedSource<T>(s: seq<T>, t: seq<T>, lo: nat, hi: nat, i: nat) returns (j: nat)
    requires Rearranged(s, t, lo, hi)
    requires lo <= i < hi
    ensures lo <= j < hi && s[j] == t[i]
  {
    assert t[lo..hi][i - lo] == t[i];
    assert t[i] in multiset(t[lo..hi]);
    assert t[i] in s[lo..hi];
    var k :| 0 <= k < |s[lo..hi]| && s[lo..hi][k] == t[i];
    j := lo + k;
  }

  lemma {:induction false} CountTwice<T>(s: seq<T>, i: nat, j: nat)
    requires i < j < |s| && s[i] == s[j]
    ensures multiset(s)[s[i]] >= 2
  {
    assert s == s[..j] + [s[j]] + s[j + 1..];
    assert s[..j][i] == s[i];
    assert s[i] in multiset(s[..j]);
  }

  lemma {:induction false} TwiceMeansTwo<T>(s: seq<T>, v: T) returns (i: nat, j: nat)
    requires multiset(s)[v] >= 2
    ensures i < j < |s| && s[i] == v && s[j] == v
    decreases |s|
  {
    var m := |s| - 1;
    assert s == s[..m] + [s[m]];
    if s[m] == v {
      assert v in multiset(s[..m]);
      i :| 0 <= i < m && s[..m][i] == v;
      j := m;
    } else {
      i, j := TwiceMeansTwo(s[..m], v);
    }
  }

  /** A permutation keeps a key that no two entries share that way. */
  lemma DistinctKept<T, K>(s: seq<T>, t: seq<T>, key: T -> K)
    requires multiset(s) == multiset(t)
    requires forall i, j :: 0 <= i < j < |s| ==> key(s[i]) != key(s[j])
    ensures forall i, j :: 0 <= i < j < |t| ==> key(t[i]) != key(t[j])
  {
    forall i, j | 0 <= i < j < |t| ensures key(t[i]) != key(t[j]) {
      if t[i] == t[j] {
        CountTwice(t, i, j);
        var a, b := TwiceMeansTwo(s, t[i]);
      } else {
        assert t[i] in multiset(s) && t[j] in multiset(s);
        var a :| 0 <= a < |s| && s[a] == t[i];
        var b :| 0 <= b < |s| && s[b] == t[j];
        assert a != b;
      }
    }
  }

  lemma RearrangedOutside<T>(s: seq<T>, t: seq<T>, lo: nat, hi: nat, i: nat)
    requires Rearranged(s, t, lo, hi)
    requires i < lo || hi <= i < |s|
    ensures s[i] == t[i]
  {
    if i < lo {
      assert s[..lo][i] == t[..lo][i];
    } else {
      assert s[hi..][i - hi] == t[hi..][i - hi];
    }
  }

  ghost function Swapped<T>(s: seq<T>, i: nat, j: nat): (t: seq<T>)
    requires i < |s| && j < |s|
    ensures |t| == |s|
  {
    s[i := s[j]][j := s[i]]
  }

  lemma SwapRearranges<T>(s: seq<T>, i: nat, j: nat, lo: nat, hi: nat)
    requires lo <= i < hi <= |s| && lo <= j < hi
    ensures Rearranged(s, Swapped(s, i, j), lo, hi)
  {
    var t := Swapped(s, i, j);
    assert t[lo..hi] == s[lo..hi][i - lo := s[j]][j - lo := s[i]];
  }

  // ----- Exchanging elements

  method Swap<T>(arr: array<T>, i: nat, j: nat, ghost lo: nat, ghost hi: nat)
    requires lo <= i < hi <= arr.Length && lo <= j < hi
    modifies arr
    ensures arr[..] == Swapped(old(arr[..]), i, j)
    ensures Rearranged(old(arr[..]), arr[..], lo, hi)
  {
    SwapRearranges(arr[..], i, j, lo, hi);
    arr[i], arr[j] := arr[j], arr[i];
  }

  /** `t` is `s` with the first `k` elements from `p` and from `q` exchanged. */
  ghost predicate BlocksSwapped<T>(s: seq<T>, t: seq<T>, p: nat, q: nat, k: nat) {
    && p + k <= q && q + k <= |s| == |t|
    && (forall i :: p <= i < p + k ==> t[i] == s[i + (q - p)])
    && (forall i :: q <= i < q + k ==> t[i] == s[i - (q - p)])
    && (forall i :: 0 <= i < |s| && !(p <= i < p + k) && !(q <= i < q + k) ==> t[i] == s[i])
  }

  lemma BlocksSwappedStep<T>(s: seq<T>, t: seq<T>, p: nat, q: nat, k: nat)
    requires BlocksSwapped(s, t, p, q, k) && p + k < q && q + k < |s|
    ensures BlocksSwapped(s, Swapped(t, p + k, q + k), p, q, k + 1)
  {
  }

  /** `cq_swapfunc` on whole elements: exchange two disjoint blocks of `count` elements. */
  method SwapBlocks<T>(arr: array<T>, p: nat, q: nat, count: nat, ghost lo: nat, ghost hi: nat)
    requires lo <= p && p + count <= q && q + count <= hi <= arr.Length
    modifies arr
    ensures BlocksSwapped(old(arr[..]), arr[..], p, q, count)
    ensures Rearranged(old(arr[..]), arr[..], lo, hi)
  {
    hide *;
    RearrangedRefl(arr[..], lo, hi);
    assert BlocksSwapped(arr[..], arr[..], p, q, 0) by { BlocksSwappedNone(arr[..], p, q); }
    var k := 0;
    while k < count
      invariant k <= count
      invariant BlocksSwapped(old(arr[..]), arr[..], p, q, k)
      invariant Rearranged(old(arr[..]), arr[..], lo, hi)
    {
      ghost var before := arr[..];
      BlocksSwappedStep(old(arr[..]), before, p, q, k);
      Swap(arr, p + k, q + k, lo, hi);
      RearrangedTrans(old(arr[..]), before, arr[..], lo, hi);
      k := k + 1;
    }
  }

  lemma BlocksSwappedNone<T>(s: seq<T>, p: nat, q: nat)
    requires p <= q <= |s|
    ensures BlocksSwapped(s, s, p, q, 0)
  {
  }

  // ----- Insertion sort for tiny ranges

  method SortTiny<T(!new)>(arr: array<T>, lo: nat, hi: nat, cmp: (T, T) -> int)
    requires lo <= hi <= arr.Length
    modifies arr
    ensures Rearranged(old(arr[..]), arr[..], lo, hi)
    ensures TotalPreorder(cmp) ==> SortedBy(arr[lo..hi], cmp)
  {
    if lo == hi { return; }
    var i := lo + 1;
    while i < hi
      invariant lo < i <= hi
      invariant Rearranged(old(arr[..]), arr[..], lo, hi)
      invariant TotalPreorder(cmp) ==> SortedBy(arr[lo..i], cmp)
    {
      InsertInto(arr, lo, i, hi, cmp);
      i := i + 1;
    }
  }

  /** Positions `[lo, i]` are in order, except that the element at `j` is still too far right. */
  ghost predicate Sinking<T(!new)>(s: seq<T>, lo: nat, i: nat, j: nat, cmp: (T, T) -> int)
    requires i < |s|
  {
    forall x, y :: lo <= x < y <= i && y != j ==> cmp(s[x], s[y]) <= 0
  }

  lemma SinkStart<T(!new)>(s: seq<T>, lo: nat, i: nat, cmp: (T, T) -> int)
    requires lo <= i < |s| && SortedBy(s[lo..i], cmp)
    ensures Sinking(s, lo, i, i, cmp)
  {
    forall x, y | lo <= x < y < i ensures cmp(s[x], s[y]) <= 0 {
      assert s[x] == s[lo..i][x - lo] && s[y] == s[lo..i][y - lo];
    }
  }

  lemma SinkStep<T(!new)>(s: seq<T>, lo: nat, i: nat, j: nat, cmp: (T, T) -> int)
    requires TotalPreorder(cmp) && lo < j <= i < |s|
    requires Sinking(s, lo, i, j, cmp) && cmp(s[j - 1], s[j]) > 0
    ensures Sinking(Swapped(s, j, j - 1), lo, i, j - 1, cmp)
  {
    Flip(cmp, s[j - 1], s[j]);
    var t := Swapped(s, j, j - 1);
    forall x, y | lo <= x < y <= i && y != j - 1 ensures cmp(t[x], t[y]) <= 0 {
      if y == j && x < j - 1 { assert cmp(s[x], s[j - 1]) <= 0; }
    }
  }

  lemma SinkDone<T(!new)>(s: seq<T>, lo: nat, i: nat, j: nat, cmp: (T, T) -> int)
    requires TotalPreorder(cmp) && lo <= j <= i < |s|
    requires Sinking(s, lo, i, j, cmp) && (lo < j ==> cmp(s[j - 1], s[j]) <= 0)
    ensures SortedBy(s[lo..i + 1], cmp)
  {
    forall x, y | lo <= x < y <= i ensures cmp(s[x], s[y]) <= 0 {
      if y == j && x < j - 1 { Transitive(cmp, s[x], s[j - 1], s[j]); }
    }
  }

  /** Sink element `i` leftwards until its left neighbour does not exceed it. */
  method InsertInto<T(!new)>(arr: array<T>, lo: nat, i: nat, hi: nat, cmp: (T, T) -> int)
    requires lo <= i < hi <= arr.Length
    requires TotalPreorder(cmp) ==> SortedBy(arr[lo..i], cmp)
    modifies arr
    ensures Rearranged(old(arr[..]), arr[..], lo, hi)
    ensures TotalPreorder(cmp) ==> SortedBy(arr[lo..i + 1], cmp)
  {
    hide *;
    ghost var ordered := TotalPreorder(cmp);
    RearrangedRefl(arr[..], lo, hi);
    if ordered {
      assert arr[..][lo..i] == arr[lo..i];
      SinkStart(arr[..], lo, i, cmp);
    }
    var j := i;
    while j > lo && cmp(arr[j - 1], arr[j]) > 0
      invariant lo <= j <= i
      invariant Rearranged(old(arr[..]), arr[..], lo, hi)
      invariant ordered ==> Sinking(arr[..], lo, i, j, cmp)
    {
      ghost var before := arr[..];
      if ordered { SinkStep(before, lo, i, j, cmp); }
      Swap(arr, j, j - 1, lo, hi);
      RearrangedTrans(old(arr[..]), before, arr[..], lo, hi);
      j := j - 1;
    }
    if ordered {
      SinkDone(arr[..], lo, i, j, cmp);
      assert arr[..][lo..i + 1] == arr[lo..i + 1];
    }
  }

  // ----- Pivot selection

  /** `cq_med3`: one of the three positions whatever the comparator does, and a median when
      the comparator is a total preorder. */
  method Med3<T(!new)>(arr: array<T>, a: nat, b: nat, c: nat, cmp: (T, T) -> int) returns (m: nat)
    requires a < arr.Length && b < arr.Length && c < arr.Length
    ensures m == a || m == b || m == c
    ensures TotalPreorder(cmp) ==>
              exists x, y :: multiset{x, m, y} == multiset{a, b, c} && x < arr.Length && y < arr.Length
                             && cmp(arr[x], arr[m]) <= 0 && cmp(arr[m], arr[y]) <= 0
  {
    var ab := cmp(arr[a], arr[b]);
    var bc := cmp(arr[b], arr[c]);
    ghost var x, y: nat;
    if TotalPreorder(cmp) {
      Flip(cmp, arr[a], arr[b]); Flip(cmp, arr[b], arr[c]); Flip(cmp, arr[a], arr[c]);
    }
    if ab < 0 {
      if bc < 0 { m := b; x, y := a, c; }
      else if cmp(arr[a], arr[c]) < 0 { m := c; x, y := a, b; }
      else { m := a; x, y := c, b; }
    } else {
      if bc > 0 { m := b; x, y := c, a; }
      else if cmp(arr[a], arr[c]) > 0 { m := c; x, y := b, a; }
      else { m := a; x, y := b, c; }
    }
    assert TotalPreorder(cmp) ==> cmp(arr[x], arr[m]) <= 0 && cmp(arr[m], arr[y]) <= 0;
    assert multiset{x, m, y} == multiset{a, b, c};
  }

  method ChoosePivot<T(!new)>(arr: array<T>, lo: nat, hi: nat, cmp: (T, T) -> int) returns (pm: nat)
    requires lo + 7 <= hi <= arr.Length
    ensures lo <= pm < hi
  {
    var n := hi - lo;
    pm := lo + n / 2;
    if n > 7 {
      var p1, p2 := lo, hi - 1;
      if n > 40 {
        var offset := n / 8;
        p1 := Med3(arr, p1, p1 + offset, p1 + 2 * offset, cmp);
        pm := Med3(arr, pm - offset, pm, pm + offset, cmp);
        p2 := Med3(arr, p2 - 2 * offset, p2 - offset, p2, cmp);
      }
      pm := Med3(arr, p1, pm, p2, cmp);
    }
  }

  // ----- Three-way partition

  /** What the four scanning pointers delimit: pivot-equal elements at both ends, the smaller
      ones after the left end and the greater ones before the right end.  Position `lo` holds
      the pivot itself and is never compared. */
  ghost predicate Scanned<T(!new)>(s: seq<T>, lo: nat, hi: nat, pa: nat, pb: nat, pc: nat, pd: nat,
      cmp: (T, T) -> int) {
    && lo < pa <= pb <= pc + 1 && pc <= pd < hi <= |s|
    && (forall i :: lo < i < pa ==> cmp(s[i], s[lo]) == 0)
    && (forall i :: pa <= i < pb ==> cmp(s[i], s[lo]) < 0)
    && (forall i :: pc < i <= pd ==> cmp(s[i], s[lo]) > 0)
    && (forall i :: pd < i < hi ==> cmp(s[i], s[lo]) == 0)
  }

  /** The moves of the scan keep the four regions. */
  lemma ScanEqualUp<T(!new)>(s: seq<T>, lo: nat, hi: nat, pa: nat, pb: nat, pc: nat, pd: nat, cmp: (T, T) -> int)
    requires Scanned(s, lo, hi, pa, pb, pc, pd, cmp) && pb <= pc && cmp(s[pb], s[lo]) == 0
    ensures Scanned(Swapped(s, pa, pb), lo, hi, pa + 1, pb + 1, pc, pd, cmp)
  {
  }

  lemma ScanEqualDown<T(!new)>(s: seq<T>, lo: nat, hi: nat, pa: nat, pb: nat, pc: nat, pd: nat, cmp: (T, T) -> int)
    requires Scanned(s, lo, hi, pa, pb, pc, pd, cmp) && pb <= pc && cmp(s[pc], s[lo]) == 0
    ensures Scanned(Swapped(s, pc, pd), lo, hi, pa, pb, pc - 1, pd - 1, cmp)
  {
  }

  lemma ScanExchange<T(!new)>(s: seq<T>, lo: nat, hi: nat, pa: nat, pb: nat, pc: nat, pd: nat, cmp: (T, T) -> int)
    requires Scanned(s, lo, hi, pa, pb, pc, pd, cmp) && pb < pc && cmp(s[pb], s[lo]) > 0 && cmp(s[pc], s[lo]) < 0
    ensures Scanned(Swapped(s, pb, pc), lo, hi, pa, pb + 1, pc - 1, pd, cmp)
  {
  }

  method ScanUp<T(!new)>(arr: array<T>, lo: nat, hi: nat, pa0: nat, pb0: nat, pc: nat, ghost pd: nat,
      cmp: (T, T) -> int)
    returns (pa: nat, pb: nat)
    requires hi <= arr.Length && Scanned(arr[..], lo, hi, pa0, pb0, pc, pd, cmp)
    modifies arr
    ensures Rearranged(old(arr[..]), arr[..], lo, hi)
    ensures Scanned(arr[..], lo, hi, pa, pb, pc, pd, cmp) && pb0 <= pb
    ensures arr[lo] == old(arr[lo])
    ensures pb <= pc ==> cmp(arr[pb], arr[lo]) > 0
  {
    hide Rearranged;
    pa, pb := pa0, pb0;
    RearrangedRefl(arr[..], lo, hi);
    while pb <= pc && cmp(arr[pb], arr[lo]) <= 0
      invariant Rearranged(old(arr[..]), arr[..], lo, hi)
      invariant Scanned(arr[..], lo, hi, pa, pb, pc, pd, cmp) && pb0 <= pb
      invariant arr[lo] == old(arr[lo])
    {
      if cmp(arr[pb], arr[lo]) == 0 {
        ghost var before := arr[..];
        ScanEqualUp(before, lo, hi, pa, pb, pc, pd, cmp);
        Swap(arr, pa, pb, lo, hi);
        RearrangedTrans(old(arr[..]), before, arr[..], lo, hi);
        pa := pa + 1;
      }
      pb := pb + 1;
    }
  }

  method ScanDown<T(!new)>(arr: array<T>, lo: nat, hi: nat, ghost pa: nat, pb: nat, pc0: nat, pd0: nat,
      cmp: (T, T) -> int)
    returns (pc: nat, pd: nat)
    requires hi <= arr.Length && Scanned(arr[..], lo, hi, pa, pb, pc0, pd0, cmp)
    requires pb <= pc0 ==> cmp(arr[pb], arr[lo]) > 0
    modifies arr
    ensures Rearranged(old(arr[..]), arr[..], lo, hi)
    ensures Scanned(arr[..], lo, hi, pa, pb, pc, pd, cmp) && pc <= pc0
    ensures arr[lo] == old(arr[lo])
    ensures pb <= pc ==> pb < pc && cmp(arr[pc], arr[lo]) < 0 && cmp(arr[pb], arr[lo]) > 0
  {
    hide Rearranged;
    pc, pd := pc0, pd0;
    RearrangedRefl(arr[..], lo, hi);
    while pc >= pb && cmp(arr[pc], arr[lo]) >= 0
      invariant Rearranged(old(arr[..]), arr[..], lo, hi)
      invariant Scanned(arr[..], lo, hi, pa, pb, pc, pd, cmp) && pc <= pc0
      invariant arr[lo] == old(arr[lo])
      invariant pb <= pc ==> cmp(arr[pb], arr[lo]) > 0
    {
      if cmp(arr[pc], arr[lo]) == 0 {
        ghost var before := arr[..];
        ScanEqualDown(before, lo, hi, pa, pb, pc, pd, cmp);
        Swap(arr, pc, pd, lo, hi);
        RearrangedTrans(old(arr[..]), before, arr[..], lo, hi);
        pd := pd - 1;
      }
      pc := pc - 1;
    }
  }

  /** The double scan.  It stops for every comparator, with the scans having met. */
  method Partition<T(!new)>(arr: array<T>, lo: nat, hi: nat, cmp: (T, T) -> int)
    returns (pa: nat, pb: nat, pc: nat, pd: nat)
    requires lo + 1 < hi <= arr.Length
    modifies arr
    ensures Rearranged(old(arr[..]), arr[..], lo, hi)
    ensures arr[lo] == old(arr[lo])
    ensures Scanned(arr[..], lo, hi, pa, pb, pc, pd, cmp) && pb == pc + 1
  {
    hide Rearranged;
    pa, pb, pc, pd := lo + 1, lo + 1, hi - 1, hi - 1;
    RearrangedRefl(arr[..], lo, hi);
    while true
      invariant Rearranged(old(arr[..]), arr[..], lo, hi)
      invariant arr[lo] == old(arr[lo])
      invariant Scanned(arr[..], lo, hi, pa, pb, pc, pd, cmp)
      decreases pc + 1 - pb
    {
      ghost var s0 := arr[..];
      pa, pb := ScanUp(arr, lo, hi, pa, pb, pc, pd, cmp);
      RearrangedTrans(old(arr[..]), s0, arr[..], lo, hi);
      ghost var s1 := arr[..];
      pc, pd := ScanDown(arr, lo, hi, pa, pb, pc, pd, cmp);
      RearrangedTrans(old(arr[..]), s1, arr[..], lo, hi);
      if pb > pc { break; }
      ghost var s2 := arr[..];
      ScanExchange(s2, lo, hi, pa, pb, pc, pd, cmp);
      Swap(arr, pb, pc, lo, hi);
      RearrangedTrans(old(arr[..]), s2, arr[..], lo, hi);
      pb, pc := pb + 1, pc - 1;
    }
  }

  /** The finished partition: smaller elements, then the pivot and its equals, then greater ones. */
  ghost predicate Split<T(!new)>(s: seq<T>, lo: nat, hi: nat, mid1: nat, mid2: nat, pivot: T, cmp: (T, T) -> int) {
    && lo <= mid1 < mid2 <= hi <= |s|
    && (forall i :: lo <= i < mid1 ==> cmp(s[i], pivot) < 0)
    && (forall i :: mid1 <= i < mid2 ==> s[i] == pivot || cmp(s[i], pivot) == 0)
    && (forall i :: mid2 <= i < hi ==> cmp(s[i], pivot) > 0)
  }

  /** Block-swap the pivot-equal left end into the middle. */
  method GatherLeft<T(!new)>(arr: array<T>, lo: nat, hi: nat, pa: nat, pb: nat, cmp: (T, T) -> int)
    requires lo < pa <= pb <= hi <= arr.Length
    requires forall i :: lo < i < pa ==> cmp(arr[i], arr[lo]) == 0
    requires forall i :: pa <= i < pb ==> cmp(arr[i], arr[lo]) < 0
    modifies arr
    ensures Rearranged(old(arr[..]), arr[..], lo, hi)
    ensures forall i :: lo <= i < lo + (pb - pa) ==> cmp(arr[i], old(arr[lo])) < 0
    ensures forall i :: lo + (pb - pa) <= i < pb ==> arr[i] == old(arr[lo]) || cmp(arr[i], old(arr[lo])) == 0
    ensures forall i :: pb <= i < hi ==> arr[i] == old(arr[i])
  {
    var s := if pa - lo < pb - pa then pa - lo else pb - pa;
    SwapBlocks(arr, lo, pb - s, s, lo, hi);
  }

  /** Block-swap the pivot-equal right end into the middle. */
  method GatherRight<T(!new)>(arr: array<T>, lo: nat, hi: nat, pc: nat, pd: nat, ghost pivot: T, cmp: (T, T) -> int)
    requires lo <= pc <= pd < hi <= arr.Length
    requires forall i :: pc < i <= pd ==> cmp(arr[i], pivot) > 0
    requires forall i :: pd < i < hi ==> cmp(arr[i], pivot) == 0
    modifies arr
    ensures Rearranged(old(arr[..]), arr[..], lo, hi)
    ensures forall i :: lo <= i <= pc ==> arr[i] == old(arr[i])
    ensures forall i :: pc < i < hi - (pd - pc) ==> cmp(arr[i], pivot) == 0
    ensures forall i :: hi - (pd - pc) <= i < hi ==> cmp(arr[i], pivot) > 0
  {
    var s := if pd - pc < hi - pd - 1 then pd - pc else hi - pd - 1;
    SwapBlocks(arr, pc + 1, hi - s, s, lo, hi);
  }

  method Gather<T(!new)>(arr: array<T>, lo: nat, hi: nat, pa: nat, pb: nat, pc: nat, pd: nat, cmp: (T, T) -> int)
    requires hi <= arr.Length && Scanned(arr[..], lo, hi, pa, pb, pc, pd, cmp) && pb == pc + 1
    modifies arr
    ensures Rearranged(old(arr[..]), arr[..], lo, hi)
    ensures Split(arr[..], lo, hi, lo + (pb - pa), hi - (pd - pc), old(arr[lo]), cmp)
  {
    ghost var pivot := arr[lo];
    GatherLeft(arr, lo, hi, pa, pb, cmp);
    GatherRight(arr, lo, hi, pc, pd, pivot, cmp);
  }

  // ----- The stack of pending ranges

  datatype Range = Range(lo: nat, hi: nat)

  ghost predicate Within(r: Range, i: int, j: int) {
    r.lo <= i && j < r.hi
  }

  ghost predicate Covered(pending: seq<Range>, i: int, j: int) {
    exists k :: 0 <= k < |pending| && Within(pending[k], i, j)
  }

  /** The window `[lo, hi)` is sorted, except that two positions inside one pending range may
      still be out of order. */
  ghost predicate SortedExcept<T(!new)>(s: seq<T>, lo: nat, hi: nat, pending: seq<Range>, cmp: (T, T) -> int)
    requires hi <= |s|
  {
    forall i, j :: lo <= i < j < hi ==> cmp(s[i], s[j]) <= 0 || Covered(pending, i, j)
  }

  ghost predicate Disjoint(r: Range, q: Range) {
    r.hi <= q.lo || q.hi <= r.lo
  }

  ghost predicate WellFormed(pending: seq<Range>, lo: nat, hi: nat) {
    && (forall k :: 0 <= k < |pending| ==> lo <= pending[k].lo <= pending[k].hi <= hi)
    && (forall k, l :: 0 <= k < l < |pending| ==> Disjoint(pending[k], pending[l]))
  }

  lemma CoveredAppend(rest: seq<Range>, news: seq<Range>, i: int, j: int)
    ensures Covered(rest + news, i, j) <==> Covered(rest, i, j) || Covered(news, i, j)
  {
    if Covered(rest, i, j) {
      var k :| 0 <= k < |rest| && Within(rest[k], i, j);
      assert (rest + news)[k] == rest[k];
    }
    if Covered(news, i, j) {
      var k :| 0 <= k < |news| && Within(news[k], i, j);
      assert (rest + news)[|rest| + k] == news[k];
    }
  }

  /** Two positions, one inside the top range and one outside, are not covered together. */
  lemma StraddleNotCovered(rest: seq<Range>, r: Range, lo: nat, hi: nat, i: int, j: int)
    requires WellFormed(rest + [r], lo, hi)
    requires i < j && (r.lo <= i < r.hi || r.lo <= j < r.hi) && !Within(r, i, j)
    ensures !Covered(rest + [r], i, j)
  {
    forall k | 0 <= k < |rest| ensures !Within((rest + [r])[k], i, j) {
      assert Disjoint((rest + [r])[k], (rest + [r])[|rest|]);
    }
    assert (rest + [r])[|rest|] == r;
  }

  /** Working on the top range alone keeps everything else sorted: if the range was only
      permuted, and is now sorted except within `news`, then `news` may replace it. */
  lemma ReplaceTop<T(!new)>(s: seq<T>, t: seq<T>, lo: nat, hi: nat, rest: seq<Range>, r: Range, news: seq<Range>,
      cmp: (T, T) -> int)
    requires hi <= |s| && WellFormed(rest + [r], lo, hi)
    requires Rearranged(s, t, r.lo, r.hi)
    requires SortedExcept(s, lo, hi, rest + [r], cmp)
    requires SortedExcept(t, r.lo, r.hi, news, cmp)
    ensures SortedExcept(t, lo, hi, rest + news, cmp)
  {
    assert (rest + [r])[|rest|] == r;
    forall i, j | lo <= i < j < hi
      ensures cmp(t[i], t[j]) <= 0 || Covered(rest + news, i, j)
    {
      CoveredAppend(rest, news, i, j);
      if !Within(r, i, j) {
        ReplaceTopPair(s, t, lo, hi, rest, r, cmp, i, j);
      }
    }
  }

  lemma ReplaceTopPair<T(!new)>(s: seq<T>, t: seq<T>, lo: nat, hi: nat, rest: seq<Range>, r: Range, cmp: (T, T) -> int,
      i: nat, j: nat)
    requires hi <= |s| && WellFormed(rest + [r], lo, hi)
    requires Rearranged(s, t, r.lo, r.hi)
    requires SortedExcept(s, lo, hi, rest + [r], cmp)
    requires lo <= i < j < hi && !Within(r, i, j)
    ensures cmp(t[i], t[j]) <= 0 || Covered(rest, i, j)
  {
    assert (rest + [r])[|rest|] == r;
    var i', j' := i, j;
    if r.lo <= i < r.hi { i' := RearrangedSource(s, t, r.lo, r.hi, i); }
        else { RearrangedOutside(s, t, r.lo, r.hi, i); }
    if r.lo <= j < r.hi { j' := RearrangedSource(s, t, r.lo, r.hi, j); }
        else { RearrangedOutside(s, t, r.lo, r.hi, j); }
    if r.lo <= i < r.hi || r.lo <= j < r.hi {
      StraddleNotCovered(rest, r, lo, hi, i', j');
    } else {
      CoveredAppend(rest, [r], i, j);
    }
  }

  /** A finished partition leaves only its two outer parts to be sorted. */
  lemma SplitLeavesEnds<T(!new)>(t: seq<T>, lo: nat, hi: nat, mid1: nat, mid2: nat, pivot: T, news: seq<Range>,
      cmp: (T, T) -> int)
    requires TotalPreorder(cmp)
    requires Split(t, lo, hi, mid1, mid2, pivot, cmp)
    requires lo < mid1 ==> Range(lo, mid1) in news
    requires mid2 < hi ==> Range(mid2, hi) in news
    ensures SortedExcept(t, lo, hi, news, cmp)
  {
    forall i, j | lo <= i < j < hi ensures cmp(t[i], t[j]) <= 0 || Covered(news, i, j) {
      if j < mid1 || mid2 <= i {
        var r := if j < mid1 then Range(lo, mid1) else Range(mid2, hi);
        var k :| 0 <= k < |news| && news[k] == r;
        assert Within(news[k], i, j);
      } else {
        Flip(cmp, pivot, pivot); Flip(cmp, pivot, t[j]);
        Transitive(cmp, t[i], pivot, t[j]);
      }
    }
  }

  // ----- The stack bound

  /** `n` halved `k` times. */
  ghost function Halved(n: nat, k: nat): nat {
    if k == 0 then n else Halved(n, k - 1) / 2
  }

  lemma {:induction false} HalvedBelow(n: nat, j: nat, k: nat)
    requires n < Integers.Pow2(j + k)
    ensures Halved(n, k) < Integers.Pow2(j)
    decreases k
  {
    if k > 0 { HalvedBelow(n, j + 1, k - 1); }
  }

  lemma {:induction false} HalvedShrinks(n: nat, j: nat, k: nat)
    requires j <= k
    ensures Halved(n, k) <= Halved(n, j)
    decreases k
  {
    if j < k { HalvedShrinks(n, j, k - 1); }
  }

  /** A range at stack depth `k` has at most `n / 2^k` elements. */
  ghost predicate Halving(pending: seq<Range>, n: nat) {
    forall k :: 0 <= k < |pending| ==> pending[k].hi - pending[k].lo <= Halved(n, k)
  }

  /** A range worth splitting leaves room for two more stack entries: this is why the
      assertion on the stack pointer cannot fail. */
  lemma DepthBound(size: nat, depth: nat, n: nat, bits: nat)
    requires 7 <= size <= Halved(n, depth) && n < Integers.Pow2(bits)
    ensures depth + 2 < bits
  {
    if bits <= depth + 2 {
      assert Halved(n, depth + 2) == Halved(n, depth + 1) / 2;
      HalvedShrinks(n, bits, depth + 2);
      HalvedBelow(n, 0, bits);
    }
  }

  ghost function TotalSize(pending: seq<Range>): int {
    if pending == [] then 0
    else var r := pending[|pending| - 1]; (r.hi - r.lo) + TotalSize(pending[..|pending| - 1])
  }

  lemma TotalSizeAppend(rest: seq<Range>, r: Range)
    ensures TotalSize(rest + [r]) == (r.hi - r.lo) + TotalSize(rest)
  {
    assert (rest + [r])[..|rest|] == rest;
  }

  ghost predicate StackInv(pending: seq<Range>, lo: nat, hi: nat) {
    lo <= hi && WellFormed(pending, lo, hi) && Halving(pending, hi - lo)
  }

  lemma {:induction false} TotalSizeNonNegative(pending: seq<Range>, lo: nat, hi: nat)
    requires StackInv(pending, lo, hi)
    ensures TotalSize(pending) >= 0
    decreases |pending|
  {
    if pending != [] {
      TotalSizeNonNegative(pending[..|pending| - 1], lo, hi);
    }
  }

  lemma Pop(rest: seq<Range>, r: Range, lo: nat, hi: nat)
    requires StackInv(rest + [r], lo, hi)
    ensures StackInv(rest, lo, hi)
    ensures lo <= r.lo <= r.hi <= hi && r.hi - r.lo <= Halved(hi - lo, |rest|)
    ensures forall k :: 0 <= k < |rest| ==> Disjoint(rest[k], r)
    ensures TotalSize(rest) == TotalSize(rest + [r]) - (r.hi - r.lo)
  {
    var all := rest + [r];
    assert all[|rest|] == r;
    forall k | 0 <= k < |rest|
      ensures lo <= rest[k].lo <= rest[k].hi <= hi && rest[k].hi - rest[k].lo <= Halved(hi - lo, k)
      ensures Disjoint(rest[k], r)
    {
      assert all[k] == rest[k] && Disjoint(all[k], all[|rest|]);
    }
    forall k, l | 0 <= k < l < |rest| ensures Disjoint(rest[k], rest[l]) {
      assert Disjoint(all[k], all[l]);
    }
    TotalSizeAppend(rest, r);
  }

  lemma Push(rest: seq<Range>, r: Range, lo: nat, hi: nat)
    requires StackInv(rest, lo, hi)
    requires lo <= r.lo <= r.hi <= hi && r.hi - r.lo <= Halved(hi - lo, |rest|)
    requires forall k :: 0 <= k < |rest| ==> Disjoint(rest[k], r)
    ensures StackInv(rest + [r], lo, hi)
    ensures TotalSize(rest + [r]) == TotalSize(rest) + (r.hi - r.lo)
  {
    TotalSizeAppend(rest, r);
  }

  lemma DisjointInside(a: Range, r: Range, part: Range)
    requires Disjoint(a, r) && r.lo <= part.lo <= part.hi <= r.hi
    ensures Disjoint(a, part)
  {
  }

  lemma HalvedStep(n: nat, k: nat)
    ensures Halved(n, k + 1) == Halved(n, k) / 2
  {
  }

  /** What replacing the top range by its subranges keeps of the stack: the larger part goes
      first, the smaller one above it, an empty one is dropped. */
  lemma PushSubranges(rest: seq<Range>, r: Range, big: Range, small: Range, lo: nat, hi: nat)
    requires StackInv(rest + [r], lo, hi)
    requires r.lo <= big.lo <= big.hi <= r.hi && r.lo <= small.lo <= small.hi <= r.hi
    requires Disjoint(big, small)
    requires small.hi - small.lo <= big.hi - big.lo
    requires (small.hi - small.lo) + (big.hi - big.lo) < r.hi - r.lo
    ensures StackInv(rest + [big], lo, hi) && TotalSize(rest + [big]) < TotalSize(rest + [r])
    ensures StackInv(rest + [big, small], lo, hi) && TotalSize(rest + [big, small]) < TotalSize(rest + [r])
  {
    hide StackInv, TotalSize, Disjoint, Halved;
    Pop(rest, r, lo, hi);
    forall k | 0 <= k < |rest| ensures Disjoint(rest[k], big) && Disjoint(rest[k], small) {
      DisjointInside(rest[k], r, big);
      DisjointInside(rest[k], r, small);
    }
    Push(rest, big, lo, hi);
    var lower := rest + [big];
    assert lower + [small] == rest + [big, small];
    HalvedStep(hi - lo, |rest|);
    Push(lower, small, lo, hi);
  }

  /** What splitting a range leaves on the stack in its place: the larger outer part, with the
      smaller one above it; empty parts are dropped. */
  ghost function Parts(r: Range, less: nat, greater: nat): seq<Range>
    requires less + greater <= r.hi
  {
    var left, right := Range(r.lo, r.lo + less), Range(r.hi - greater, r.hi);
    var big, small := if greater > less then right else left, if greater > less then left else right;
    if less == 0 && greater == 0 then [] else if small.lo != small.hi then [big, small] else [big]
  }

  lemma PartsPushed(rest: seq<Range>, r: Range, less: nat, greater: nat, lo: nat, hi: nat)
    requires StackInv(rest + [r], lo, hi) && r.lo + less + greater < r.hi
    ensures StackInv(rest + Parts(r, less, greater), lo, hi)
    ensures TotalSize(rest + Parts(r, less, greater)) < TotalSize(rest + [r])
    ensures less == 0 && greater == 0 ==> rest + Parts(r, less, greater) == rest
  {
    if less == 0 && greater == 0 {
      Pop(rest, r, lo, hi);
      assert rest + [] == rest;
    } else {
      var left, right := Range(r.lo, r.lo + less), Range(r.hi - greater, r.hi);
      if greater > less {
        PushSubranges(rest, r, right, left, lo, hi);
      } else {
        PushSubranges(rest, r, left, right, lo, hi);
      }
    }
  }

  // ----- The sort

  /** Pick a pivot, bring it to the front, partition around it and gather its equals. */
  method SplitRange<T(!new)>(arr: array<T>, lo: nat, hi: nat, cmp: (T, T) -> int)
    returns (less: nat, greater: nat, ghost pivot: T)
    requires lo + 7 <= hi <= arr.Length
    modifies arr
    ensures Rearranged(old(arr[..]), arr[..], lo, hi)
    ensures lo + less < hi - greater
    ensures Split(arr[..], lo, hi, lo + less, hi - greater, pivot, cmp)
  {
    var pm := ChoosePivot(arr, lo, hi, cmp);
    Swap(arr, lo, pm, lo, hi);
    pivot := arr[lo];
    var pa, pb, pc, pd := Partition(arr, lo, hi, cmp);
    Gather(arr, lo, hi, pa, pb, pc, pd, cmp);
    less, greater := pb - pa, pd - pc;
  }

  /** Sorting the top range finishes it. */
  lemma FinishTop<T(!new)>(s: seq<T>, t: seq<T>, lo: nat, hi: nat, rest: seq<Range>, r: Range, cmp: (T, T) -> int)
    requires hi <= |s| && StackInv(rest + [r], lo, hi)
    requires Rearranged(s, t, r.lo, r.hi)
    requires TotalPreorder(cmp) ==> SortedExcept(s, lo, hi, rest + [r], cmp)
    requires TotalPreorder(cmp) ==> SortedBy(t[r.lo..r.hi], cmp)
    ensures TotalPreorder(cmp) ==> SortedExcept(t, lo, hi, rest, cmp)
  {
    if TotalPreorder(cmp) {
      forall i, j | r.lo <= i < j < r.hi ensures cmp(t[i], t[j]) <= 0 {
        assert t[i] == t[r.lo..r.hi][i - r.lo] && t[j] == t[r.lo..r.hi][j - r.lo];
      }
      ReplaceTop(s, t, lo, hi, rest, r, [], cmp);
      assert rest + [] == rest;
    }
  }

  /** Splitting the top range leaves its nonempty outer parts pending. */
  lemma SplitTop<T(!new)>(s: seq<T>, t: seq<T>, lo: nat, hi: nat, rest: seq<Range>, r: Range,
                          less: nat, greater: nat, pivot: T, cmp: (T, T) -> int)
    requires hi <= |s| && StackInv(rest + [r], lo, hi)
    requires Rearranged(s, t, r.lo, r.hi)
    requires TotalPreorder(cmp) ==> SortedExcept(s, lo, hi, rest + [r], cmp)
    requires r.lo + less < r.hi - greater
    requires Split(t, r.lo, r.hi, r.lo + less, r.hi - greater, pivot, cmp)
    ensures TotalPreorder(cmp) ==> SortedExcept(t, lo, hi, rest + Parts(r, less, greater), cmp)
  {
    if TotalPreorder(cmp) {
      var news := Parts(r, less, greater);
      assert less != 0 ==> news[if greater > less then 1 else 0] == Range(r.lo, r.lo + less);
      assert greater != 0 ==> news[if greater > less then 0 else 1] == Range(r.hi - greater, r.hi);
      SplitLeavesEnds(t, r.lo, r.hi, r.lo + less, r.hi - greater, pivot, news, cmp);
      ReplaceTop(s, t, lo, hi, rest, r, news, cmp);
    }
  }

  /** Insertion sort of a popped range of fewer than seven elements. */
  method FinishTiny<T(!new)>(arr: array<T>, base: nat, n: nat, lo: nat, hi: nat, cmp: (T, T) -> int,
      ghost rest: seq<Range>)
    requires base + n <= arr.Length && lo <= hi
    requires StackInv(rest + [Range(lo, hi)], base, base + n)
    requires TotalPreorder(cmp) ==> SortedExcept(arr[..], base, base + n, rest + [Range(lo, hi)], cmp)
    modifies arr
    ensures Rearranged(old(arr[..]), arr[..], base, base + n)
    ensures TotalPreorder(cmp) ==> SortedExcept(arr[..], base, base + n, rest, cmp)
  {
    hide *;
    ghost var r, before := Range(lo, hi), arr[..];
    Pop(rest, r, base, base + n);
    SortTiny(arr, lo, hi, cmp);
    assert arr[..][lo..hi] == arr[lo..hi];
    RearrangedWiden(before, arr[..], lo, hi, base, base + n);
    FinishTop(before, arr[..], base, base + n, rest, r, cmp);
  }

  /** Partition of a popped range of seven or more elements. */
  method SplitPopped<T(!new)>(arr: array<T>, base: nat, n: nat, lo: nat, hi: nat, cmp: (T, T) -> int,
      ghost rest: seq<Range>)
    returns (less: nat, greater: nat)
    requires base + n <= arr.Length && lo + 7 <= hi
    requires StackInv(rest + [Range(lo, hi)], base, base + n)
    requires TotalPreorder(cmp) ==> SortedExcept(arr[..], base, base + n, rest + [Range(lo, hi)], cmp)
    modifies arr
    ensures lo + less < hi - greater
    ensures Rearranged(old(arr[..]), arr[..], base, base + n)
    ensures TotalPreorder(cmp) ==>
              SortedExcept(arr[..], base, base + n, rest + Parts(Range(lo, hi), less, greater), cmp)
  {
    hide *;
    ghost var r, before := Range(lo, hi), arr[..];
    Pop(rest, r, base, base + n);
    ghost var pivot;
    less, greater, pivot := SplitRange(arr, lo, hi, cmp);
    RearrangedWiden(before, arr[..], lo, hi, base, base + n);
    SplitTop(before, arr[..], base, base + n, rest, r, less, greater, pivot, cmp);
  }

  // ----- The stack array

  /** The stack array holds exactly the pending ranges, as offsets from `base`. */
  ghost predicate Holds(words: seq<nat>, pending: seq<Range>, base: nat) {
    && 2 * |pending| <= |words|
    && forall k :: 0 <= k < |pending| ==>
        base + words[2 * k] == pending[k].lo && base + words[2 * k + 1] == pending[k].hi
  }

  lemma HoldsPush(words: seq<nat>, words': seq<nat>, rest: seq<Range>, r: Range, base: nat)
    requires Holds(words, rest, base) && 2 * |rest| + 2 <= |words'|
    requires words[..2 * |rest|] == words'[..2 * |rest|]
    requires base + words'[2 * |rest|] == r.lo && base + words'[2 * |rest| + 1] == r.hi
    ensures Holds(words', rest + [r], base)
  {
    forall k | 0 <= k < |rest| ensures words[2 * k] == words'[2 * k] && words[2 * k + 1] == words'[2 * k + 1] {
      assert words[2 * k] == words[..2 * |rest|][2 * k] && words[2 * k + 1] == words[..2 * |rest|][2 * k + 1];
    }
  }

  lemma HoldsPop(words: seq<nat>, rest: seq<Range>, r: Range, base: nat)
    requires Holds(words, rest + [r], base)
    ensures Holds(words, rest, base) && 2 * |rest| + 2 <= |words|
    ensures base + words[2 * |rest|] == r.lo && base + words[2 * |rest| + 1] == r.hi
  {
    assert (rest + [r])[|rest|] == r;
    forall k | 0 <= k < |rest| ensures (rest + [r])[k] == rest[k] {}
  }

  method WriteParts(stack: array<nat>, sp: nat, less: nat, greater: nat)
    requires sp + 4 < stack.Length
    requires stack[sp] + less < stack[sp + 1] - greater
    modifies stack
    ensures stack[..sp] == old(stack[..sp])
    ensures var lo, hi := old(stack[sp]), old(stack[sp + 1]);
            if greater > less then stack[sp..sp + 4] == [hi - greater, hi, lo, lo + less]
            else stack[sp..sp + 4] == [lo, lo + less, hi - greater, hi]
  {
    stack[sp + 2] := stack[sp + 1] - greater;
    stack[sp + 3] := stack[sp + 1];
    stack[sp + 1] := stack[sp] + less;
    if stack[sp + 3] - stack[sp + 2] > stack[sp + 1] - stack[sp] {
      stack[sp], stack[sp + 2] := stack[sp + 2], stack[sp];
      stack[sp + 1], stack[sp + 3] := stack[sp + 3], stack[sp + 1];
    }
  }

  /** Replace the range at `sp` by its parts. */
  method PushParts(stack: array<nat>, sp: nat, base: nat, ghost rest: seq<Range>, ghost r: Range, less: nat,
      greater: nat)
    returns (sp': nat)
    requires sp == 2 * |rest| && sp + 4 < stack.Length && Holds(stack[..], rest, base)
    requires base + stack[sp] == r.lo && base + stack[sp + 1] == r.hi
    requires r.lo + less < r.hi - greater && (less != 0 || greater != 0)
    modifies stack
    ensures Holds(stack[..], rest + Parts(r, less, greater), base)
    ensures sp' == 2 * |rest + Parts(r, less, greater)|
  {
    ghost var before := stack[..];
    WriteParts(stack, sp, less, greater);
    ghost var four := stack[sp..sp + 4];
    assert four[0] == stack[sp] && four[1] == stack[sp + 1] && four[2] == stack[sp + 2] && four[3] == stack[sp + 3];
    ghost var big, small := Range(base + stack[sp], base + stack[sp + 1]),
        Range(base + stack[sp + 2], base + stack[sp + 3]);
    sp' := sp + if stack[sp + 2] != stack[sp + 3] then 4 else 2;
    assert Parts(r, less, greater) == if small.lo != small.hi then [big, small] else [big];
    HoldsPush(before, stack[..], rest, big, base);
    HoldsPush(stack[..], stack[..], rest + [big], small, base);
    assert rest + [big] + [small] == rest + [big, small];
  }

  /** Before the first turn, and after the last. */
  lemma SortStart<T(!new)>(s: seq<T>, words: seq<nat>, base: nat, n: nat, cmp: (T, T) -> int)
    requires base + n <= |s| && |words| >= 2 && words[0] == 0 && words[1] == n
    ensures var pending := [Range(base, base + n)];
            && Holds(words, pending, base) && StackInv(pending, base, base + n)
            && SortedExcept(s, base, base + n, pending, cmp)
    ensures Rearranged(s, s, base, base + n)
  {
    var pending := [Range(base, base + n)];
    forall i, j | base <= i < j < base + n ensures Covered(pending, i, j) {
      assert Within(pending[0], i, j);
    }
  }

  lemma SortEnd<T(!new)>(s: seq<T>, base: nat, n: nat, cmp: (T, T) -> int)
    requires base + n <= |s|
    requires SortedExcept(s, base, base + n, [], cmp)
    ensures SortedBy(s[base..base + n], cmp)
  {
  }

  /** One turn of the loop: the top range is finished or replaced by its parts. */
  method SortTurn<T(!new)>(arr: array<T>, base: nat, n: nat, cmp: (T, T) -> int, sizeofSizeT: nat,
                           stack: array<nat>, sp0: nat, ghost pending0: seq<Range>)
    returns (sp: nat, ghost pending: seq<Range>)
    requires base + n <= arr.Length && n < Integers.Pow2(8 * sizeofSizeT)
    requires stack.Length == (8 * sizeofSizeT + 1) * 2 && stack as object != arr as object
    requires sp0 == 2 * |pending0| > 0 && Holds(stack[..], pending0, base)
    requires StackInv(pending0, base, base + n)
    requires TotalPreorder(cmp) ==> SortedExcept(arr[..], base, base + n, pending0, cmp)
    modifies arr, stack
    ensures sp == 2 * |pending| && Holds(stack[..], pending, base)
    ensures StackInv(pending, base, base + n)
    ensures Rearranged(old(arr[..]), arr[..], base, base + n)
    ensures TotalPreorder(cmp) ==> SortedExcept(arr[..], base, base + n, pending, cmp)
    ensures TotalSize(pending) < TotalSize(pending0)
        || (TotalSize(pending) == TotalSize(pending0) && |pending| < |pending0|)
  {
    hide *;
    sp := sp0 - 2;
    ghost var rest, r := pending0[..|pending0| - 1], pending0[|pending0| - 1];
    assert pending0 == rest + [r];
    Pop(rest, r, base, base + n);
    HoldsPop(stack[..], rest, r, base);
    var lo, hi := base + stack[sp], base + stack[sp + 1];
    if hi - lo < 7 {
      FinishTiny(arr, base, n, lo, hi, cmp, rest);
      pending := rest;
    } else {
      DepthBound(hi - lo, |rest|, n, 8 * sizeofSizeT);
      var less, greater := SplitPopped(arr, base, n, lo, hi, cmp, rest);
      PartsPushed(rest, r, less, greater, base, base + n);
      pending := rest + Parts(r, less, greater);
      if less != 0 || greater != 0 {
        assert sp + 4 < stack.Length;
        sp := PushParts(stack, sp, base, rest, r, less, greater);
      }
    }
  }

  /** `click_qsort` of `n` elements from position `base`, on a machine whose `size_t` has
      `sizeofSizeT` bytes.  Every comparator gives a terminating run that permutes the range
      and never overflows the stack; a total preorder gives a sorted range. */
  method QSort<T(!new)>(arr: array<T>, base: nat, n: nat, cmp: (T, T) -> int, sizeofSizeT: nat)
    requires base + n <= arr.Length
    requires n < Integers.Pow2(8 * sizeofSizeT)
    modifies arr
    ensures Rearranged(old(arr[..]), arr[..], base, base + n)
    ensures TotalPreorder(cmp) ==> SortedBy(arr[base..base + n], cmp)
  {
    hide *;
    var stack := new nat[(8 * sizeofSizeT + 1) * 2];
    stack[0], stack[1] := 0, n;
    var sp := 2;
    ghost var pending := [Range(base, base + n)];
    SortStart(arr[..], stack[..], base, n, cmp);
    while sp != 0
      invariant sp == 2 * |pending| && Holds(stack[..], pending, base)
      invariant StackInv(pending, base, base + n)
      invariant Rearranged(old(arr[..]), arr[..], base, base + n)
      invariant TotalPreorder(cmp) ==> SortedExcept(arr[..], base, base + n, pending, cmp)
      decreases TotalSize(pending), |pending|
    {
      ghost var before := arr[..];
      TotalSizeNonNegative(pending, base, base + n);
      sp, pending := SortTurn(arr, base, n, cmp, sizeofSizeT, stack, sp, pending);
      RearrangedTrans(old(arr[..]), before, arr[..], base, base + n);
    }
    assert pending == [];
    if TotalPreorder(cmp) {
      SortEnd(arr[..], base, n, cmp);
      assert arr[..][base..base + n] == arr[base..base + n];
    }
  }
}
