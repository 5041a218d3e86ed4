/** Byte strings and `String::compare`: bytewise order, a proper prefix first. */
module Strings {
  import Sorting

  function Compare(a: string, b: string): int {
    if a == [] || b == [] then |a| - |b|
    else if a[0] != b[0] then a[0] as int - b[0] as int
    else Compare(a[1..], b[1..])
  }

  predicate Less(a: string, b: string) {
    Compare(a, b) < 0
  }

  ghost predicate StrictlySorted(s: seq<string>) {
    forall i, j :: 0 <= i < j < |s| ==> Less(s[i], s[j])
  }

  lemma {:induction false} CompareEqual(a: string, b: string)
    ensures Compare(a, b) == 0 <==> a == b
  {
    if a != [] && b != [] && a[0] == b[0] {
      CompareEqual(a[1..], b[1..]);
      assert a == [a[0]] + a[1..] && b == [b[0]] + b[1..];
    }
  }

  lemma {:induction false} CompareFlip(a: string, b: string)
    ensures Compare(a, b) == -Compare(b, a)
  {
    if a != [] && b != [] && a[0] == b[0] {
      CompareFlip(a[1..], b[1..]);
    }
  }

  lemma {:induction false} CompareTrans(a: string, b: string, c: string)
    requires Compare(a, b) <= 0 && Compare(b, c) <= 0
    ensures Compare(a, c) <= 0
  {
    if a != [] && b != [] && c != [] && a[0] == b[0] && b[0] == c[0] {
      CompareTrans(a[1..], b[1..], c[1..]);
    }
  }

  lemma CompareCons(c: char, u: string, v: string)
    ensures Compare([c] + u, [c] + v) == Compare(u, v)
  {
    assert ([c] + u)[1..] == u && ([c] + v)[1..] == v;
  }

  lemma ConsAppend(p: string, u: string)
    requires p != []
    ensures p + u == [p[0]] + (p[1..] + u)
  {
  }

  lemma {:induction false} CompareAppend(p: string, u: string, v: string)
    ensures Compare(p + u, p + v) == Compare(u, v)
  {
    if p == [] {
      assert p + u == u && p + v == v;
    } else {
      hide Compare;
      CompareAppend(p[1..], u, v);
      CompareCons(p[0], p[1..] + u, p[1..] + v);
      ConsAppend(p, u);
      ConsAppend(p, v);
    }
  }

  /** Strings between two extensions of `p` extend `p` as well. */
  lemma {:induction false} PrefixInterval(p: string, a: string, b: string, c: string)
    requires p <= a && p <= c && Compare(a, b) <= 0 && Compare(b, c) <= 0
    ensures p <= b
  {
    if p != [] {
      assert a[0] == p[0] == c[0];
      assert b != [] && b[0] == p[0];
      PrefixInterval(p[1..], a[1..], b[1..], c[1..]);
      assert p == [p[0]] + p[1..] && b == [b[0]] + b[1..];
    }
  }

  lemma PrefixLess(p: string, a: string)
    requires p < a
    ensures Less(p, a)
  {
    CompareAppend(p, [], a[|p|..]);
    assert p + [] == p && p + a[|p|..] == a;
  }

  /** Same-length prefixes of ordered strings are ordered. */
  lemma {:induction false} ComparePrefixes(a: string, b: string, k: nat)
    requires Compare(a, b) <= 0 && k <= |a| && k <= |b|
    ensures Compare(a[..k], b[..k]) <= 0
  {
    if k > 0 && a[0] == b[0] {
      ComparePrefixes(a[1..], b[1..], k - 1);
      assert a[..k][1..] == a[1..][..k - 1] && b[..k][1..] == b[1..][..k - 1];
    }
  }

  lemma CompareIsOrder()
    ensures Sorting.TotalPreorder(Compare)
  {
    forall x, y, z ensures Sorting.Orderly(Compare, x, y, z) {
      CompareFlip(x, y);
      if Compare(x, y) <= 0 && Compare(y, z) <= 0 { CompareTrans(x, y, z); }
    }
  }

  /** The order is that of the first characters that differ, a proper prefix coming first. */
  lemma {:induction false} CompareIs(p: string, u: string, v: string)
    requires u == "" || v == "" || u[0] != v[0]
    ensures Compare(p + u, p + v) < 0 <==> v != "" && (u == "" || u[0] < v[0])
    ensures Compare(p + u, p + v) > 0 <==> u != "" && (v == "" || v[0] < u[0])
  {
    CompareAppend(p, u, v);
  }

  /** Any two strings have a common beginning behind which they differ or one of them ends. */
  lemma {:induction false} CommonStart(a: string, b: string) returns (p: string, u: string, v: string)
    ensures a == p + u && b == p + v && (u == "" || v == "" || u[0] != v[0])
  {
    if a == "" || b == "" || a[0] != b[0] {
      p, u, v := "", a, b;
    } else {
      p, u, v := CommonStart(a[1..], b[1..]);
      assert a == [a[0]] + a[1..] && b == [b[0]] + b[1..];
      p := [a[0]] + p;
    }
  }

  /** The position of the last slash, or -1. */
  function FindRight(s: string): (slash: int)
    ensures -1 <= slash < |s|
    ensures slash >= 0 ==> s[slash] == '/' && '/' !in s[slash + 1..]
    ensures slash < 0 ==> '/' !in s
  {
    if s == "" then -1
    else if s[|s| - 1] == '/' then |s| - 1
    else
      var slash := FindRight(s[..|s| - 1]);
      assert s == s[..|s| - 1] + [s[|s| - 1]];
      assert slash >= 0 ==> s[slash + 1..] == s[..|s| - 1][slash + 1..] + [s[|s| - 1]];
      slash
  }
}
