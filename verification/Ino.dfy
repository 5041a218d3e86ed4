/** `ClickIno`: a flat set of slash-separated element names becomes a sorted preorder table with
    synthesised directories, subtree sizes and an inverse index, searched by binary search. */
module InoNames {
  import opened Strings
  import Sorting

  /** Names as the lexer produces them: no character sorts before the slash, and a name neither
      is empty nor starts with a slash. */
  predicate ValidName(name: string) {
    name != "" && name[0] != '/' && forall i :: 0 <= i < |name| ==> name[i] >= '/'
  }

  /** `p` is a directory on the way to `name`. */
  predicate Above(p: string, name: string) {
    p != "" && p < name && name[|p|] == '/'
  }

  /** Entries under a directory; everything is under the root. */
  predicate Under(dir: string, name: string) {
    dir == "" || Above(dir, name)
  }

  /** The last slash ends the nearest directory; all others are above that one. */
  lemma NearestDirectory(p: string, name: string)
    requires ValidName(name) && Above(p, name)
    ensures var slash := FindRight(name);
            0 < slash && Above(name[..slash], name) && (p == name[..slash] || Above(p, name[..slash]))
  {
    var slash := FindRight(name);
    forall k | slash < k < |name| ensures name[k] != '/' {
      assert slash >= 0 ==> name[k] == name[slash + 1..][k - slash - 1];
    }
    assert p == name[..|p|];
    assert |p| < slash ==> p == name[..slash][..|p|] && name[..slash][|p|] == '/';
  }

  lemma NearestIsAbove(name: string)
    requires ValidName(name) && FindRight(name) >= 0
    ensures 0 < FindRight(name) && Above(name[..FindRight(name)], name) && ValidName(name[..FindRight(name)])
  {
  }

  lemma AboveTrans(p: string, q: string, name: string)
    requires Above(p, q) && Above(q, name)
    ensures Above(p, name)
  {
  }

  lemma AboveValid(p: string, name: string)
    requires ValidName(name) && Above(p, name)
    ensures ValidName(p) && Less(p, name)
  {
    PrefixLess(p, name);
    assert forall i :: 0 <= i < |p| ==> p[i] == name[i];
  }

  // ----- The ordering argument about the slash

  /** Between a directory and anything below it there are only entries below it. */
  lemma BetweenIsUnder(p: string, b: string, c: string)
    requires Above(p, c) && ValidName(b) && Compare(p, b) <= 0 && Compare(b, c) <= 0
    ensures p == b || Above(p, b)
  {
    PrefixInterval(p, p, b, c);
    if p != b {
      CompareAppend(p, b[|p|..], c[|p|..]);
      assert p + b[|p|..] == b && p + c[|p|..] == c;
      assert b[|p|..][0] == b[|p|] && c[|p|..][0] == '/';
    }
  }

  /** An earlier name that starts with the text of a directory is that directory or lies in it. */
  lemma FakeMatchImpossible(p: string, last: string, name: string)
    requires Above(p, name) && ValidName(last) && p <= last && Compare(last, name) <= 0
    ensures p == last || Above(p, last)
  {
    if p != last { PrefixLess(p, last); }
    else { CompareEqual(p, last); }
    BetweenIsUnder(p, last, name);
  }

  // ----- Directories missing from a sorted list of names

  /** The directories of `name`, innermost first, up to the first one that `last` starts with. */
  function Missing(name: string, last: string): seq<string> {
    var slash := FindRight(name);
    if slash < 0 || name[..slash] <= last then []
    else [name[..slash]] + Missing(name[..slash], last)
  }

  lemma {:induction false} MissingMembers(name: string, last: string, p: string)
    requires ValidName(name)
    ensures p in Missing(name, last) <==> Above(p, name) && !(p <= last)
    decreases |name|
  {
    var slash := FindRight(name);
    if slash >= 0 {
      NearestIsAbove(name);
      var d := name[..slash];
      if Above(p, name) { NearestDirectory(p, name); }
      if d <= last {
        assert Above(p, name) ==> p <= last;
      } else {
        MissingMembers(d, last, p);
        if Above(p, d) { AboveTrans(p, d, name); }
      }
    } else {
      forall k | 0 <= k < |name| ensures name[k] != '/' {}
    }
  }

  lemma {:induction false} MissingDistinct(name: string, last: string)
    requires ValidName(name)
    ensures Sorting.Distinct(Missing(name, last))
    decreases |name|
  {
    var slash := FindRight(name);
    if !(slash < 0 || name[..slash] <= last) {
      NearestIsAbove(name);
      var d := name[..slash];
      MissingDistinct(d, last);
      MissingMembers(d, last, d);
    }
  }

  lemma DistinctConcat(s: seq<string>, t: seq<string>)
    requires Sorting.Distinct(s) && Sorting.Distinct(t) && forall p :: p in s ==> p !in t
    ensures Sorting.Distinct(s + t)
  {
    forall i, j | 0 <= i < j < |s + t| ensures (s + t)[i] != (s + t)[j] {
      if i < |s| <= j {
        assert s[i] in s && t[j - |s|] in t;
      }
    }
  }

  function Before(s: seq<string>, k: nat): string
    requires k <= |s|
  {
    if k == 0 then "" else s[k - 1]
  }

  function AllMissing(s: seq<string>, n: nat): seq<string>
    requires n <= |s|
  {
    if n == 0 then [] else AllMissing(s, n - 1) + Missing(s[n - 1], Before(s, n - 1))
  }

  lemma AllMissingStep(s: seq<string>, i: nat)
    requires 1 <= i <= |s|
    ensures AllMissing(s, i) == AllMissing(s, i - 1) + Missing(s[i - 1], Before(s, i - 1))
  {
  }

  /** The name itself or a directory on its way. */
  predicate Along(p: string, name: string) {
    p == name || Above(p, name)
  }

  ghost predicate NamesOk(s: seq<string>) {
    StrictlySorted(s) && forall i :: 0 <= i < |s| ==> ValidName(s[i])
  }

  /** A directory of `s[k]` was met before exactly when the preceding name starts with it. */
  lemma MetBefore(s: seq<string>, k: nat, p: string)
    requires NamesOk(s) && k < |s| && Above(p, s[k])
    ensures p <= Before(s, k) <==> Met(s, k, p)
  {
    AboveValid(p, s[k]);
    if p <= Before(s, k) {
      assert k > 0 && Less(s[k - 1], s[k]);
      FakeMatchImpossible(p, s[k - 1], s[k]);
      assert Along(p, s[k - 1]);
    }
    if exists j :: 0 <= j < k && Along(p, s[j]) {
      var j :| 0 <= j < k && Along(p, s[j]);
      CompareEqual(s[j], s[k - 1]);
      assert Compare(s[j], s[k - 1]) <= 0 by { assert j < k - 1 ==> Less(s[j], s[k - 1]); }
      assert Less(s[k - 1], s[k]);
      PrefixInterval(p, s[j], s[k - 1], s[k]);
    }
  }

  lemma {:induction false} AllMissingMembers(s: seq<string>, n: nat, p: string)
    requires NamesOk(s) && n <= |s|
    ensures p in AllMissing(s, n) <==> NewBelow(s, n, p)
    decreases n
  {
    hide *;
    if n == 0 {
      AllMissingNone(s, p);
    } else {
      AllMissingMembers(s, n - 1, p);
      NewMembers(s, n - 1, p);
      NewBelowStep(s, n - 1, p);
      AllMissingStep(s, n);
    }
  }

  lemma AllMissingNone(s: seq<string>, p: string)
    ensures p !in AllMissing(s, 0) && !NewBelow(s, 0, p)
  {
  }

  lemma NewBelowStep(s: seq<string>, n: nat, p: string)
    requires n < |s|
    ensures NewBelow(s, n + 1, p) <==> NewBelow(s, n, p) || NewAt(s, n, p)
  {
  }

  ghost predicate NewBelow(s: seq<string>, n: nat, p: string)
    requires n <= |s|
  {
    exists k :: 0 <= k < n && NewAt(s, k, p)
  }

  /** `s[k]` is the first name that lies below directory `p`, and `p` is not an earlier name. */
  ghost predicate NewAt(s: seq<string>, k: nat, p: string)
    requires k < |s|
  {
    Above(p, s[k]) && !Met(s, k, p)
  }

  ghost predicate Met(s: seq<string>, k: nat, p: string)
    requires k <= |s|
  {
    exists j :: 0 <= j < k && Along(p, s[j])
  }

  lemma NewMembers(s: seq<string>, k: nat, p: string)
    requires NamesOk(s) && k < |s|
    ensures p in Missing(s[k], Before(s, k)) <==> NewAt(s, k, p)
  {
    MissingMembers(s[k], Before(s, k), p);
    if Above(p, s[k]) { MetBefore(s, k, p); }
  }

  /** With the missing directories, every directory of every name is there, and nothing else. */
  lemma ClosureComplete(s: seq<string>, p: string)
    requires NamesOk(s)
    ensures p in s || p in AllMissing(s, |s|) <==> exists k :: 0 <= k < |s| && Along(p, s[k])
  {
    AllMissingMembers(s, |s|, p);
    if p in s {
      var k :| 0 <= k < |s| && s[k] == p;
      assert Along(p, s[k]);
    }
    if exists k :: 0 <= k < |s| && Along(p, s[k]) {
      var k :| 0 <= k < |s| && Along(p, s[k]);
      var m := FirstAlong(s, p, k);
      assert p == s[m] || NewAt(s, m, p);
    }
    if p in AllMissing(s, |s|) {
      var k :| 0 <= k < |s| && NewAt(s, k, p);
      assert Along(p, s[k]);
    }
  }

  lemma {:induction false} FirstAlong(s: seq<string>, p: string, k: nat) returns (m: nat)
    requires k < |s| && Along(p, s[k])
    ensures m <= k && Along(p, s[m]) && !Met(s, m, p)
    decreases k
  {
    if j :| 0 <= j < k && Along(p, s[j]) {
      m := FirstAlong(s, p, j);
    } else {
      m := k;
    }
  }

  /** No missing directory is a given name. */
  lemma MissingAreNew(s: seq<string>, n: nat, p: string)
    requires NamesOk(s) && n <= |s| && p in AllMissing(s, n)
    ensures p !in s && ValidName(p)
  {
    hide AllMissing, Compare, ValidName;
    AllMissingMembers(s, n, p);
    var k :| 0 <= k < n && NewAt(s, k, p);
    AboveValid(p, s[k]);
    forall j | 0 <= j < |s| ensures s[j] != p {
      CompareFlip(p, s[k]);
      CompareEqual(p, s[k]);
      if j < k {
        assert s[j] == p ==> Along(p, s[j]);
      } else if j > k {
        assert Less(s[k], s[j]);
      }
    }
  }

  lemma {:induction false} AllMissingDistinct(s: seq<string>, n: nat)
    requires NamesOk(s) && n <= |s|
    ensures Sorting.Distinct(AllMissing(s, n))
    decreases n
  {
    if n > 0 {
      AllMissingDistinct(s, n - 1);
      MissingDistinct(s[n - 1], Before(s, n - 1));
      var earlier, more := AllMissing(s, n - 1), Missing(s[n - 1], Before(s, n - 1));
      forall p | p in earlier ensures p !in more {
        AllMissingMembers(s, n - 1, p);
        NewMembers(s, n - 1, p);
        var k :| 0 <= k < n - 1 && NewAt(s, k, p);
        assert Along(p, s[k]);
      }
      DistinctConcat(earlier, more);
    }
  }

  // ----- Prepared tables

  /** Position 0 is the root; the rest is strictly sorted, valid and closed under directories. */
  ghost predicate Prepared(t: seq<string>) {
    && t != [] && t[0] == ""
    && (forall i :: 1 <= i < |t| ==> ValidName(t[i]))
    && StrictlySorted(t)
    && (forall i, p :: 1 <= i < |t| && Above(p, t[i]) ==> p in t)
  }

  /** The entries under entry `i` are the next `skip` ones. */
  ghost predicate SkipIs(t: seq<string>, i: nat, skip: nat) {
    && i + skip < |t|
    && forall j :: i < j < |t| ==> (j <= i + skip <==> Under(t[i], t[j]))
  }

  lemma InsideSubtree(t: seq<string>, i: nat, j: nat, k: nat)
    requires Prepared(t) && 1 <= i < j < k < |t| && Above(t[i], t[k])
    ensures Above(t[i], t[j])
  {
    assert Less(t[i], t[j]) && Less(t[j], t[k]);
    CompareEqual(t[i], t[j]);
    BetweenIsUnder(t[i], t[j], t[k]);
  }

  /** While walking the entries under entry `i`, a name with a slash just past the directory's
      length does start with the directory: the assertion in the subtree count holds. */
  lemma SlashMeansUnder(t: seq<string>, i: nat, j: nat)
    requires Prepared(t) && 1 <= i < j < |t|
    requires forall k :: i < k < j ==> Above(t[i], t[k])
    requires |t[j]| > |t[i]| && t[j][|t[i]|] == '/'
    ensures t[j][..|t[i]|] == t[i]
  {
    var dir, q := t[i], t[j][..|t[i]|];
    assert Above(q, t[j]);
    if q != dir {
      assert q in t;
      var m :| 0 <= m < |t| && t[m] == q;
      AboveValid(q, t[j]);
      assert Less(t[i], t[j]);
      ComparePrefixes(t[i], t[j], |dir|);
      assert t[i][..|dir|] == dir;
      CompareEqual(dir, q);
      CompareFlip(dir, q);
      CompareFlip(q, t[j]);
      OrderedPositions(t, i, m);
      OrderedPositions(t, m, j);
    }
  }

  lemma OrderedPositions(t: seq<string>, i: nat, j: nat)
    requires StrictlySorted(t) && i < |t| && j < |t| && Less(t[i], t[j])
    ensures i < j
  {
    CompareFlip(t[i], t[j]);
    CompareEqual(t[i], t[j]);
  }

  /** Where the walk stops, the subtree ends. */
  lemma SubtreeEnds(t: seq<string>, i: nat, j: nat)
    requires Prepared(t) && 1 <= i < j <= |t|
    requires forall k :: i < k < j ==> Above(t[i], t[k])
    requires j < |t| ==> !Above(t[i], t[j])
    ensures SkipIs(t, i, j - i - 1)
  {
    forall k | i < k < |t| ensures k <= j - 1 <==> Under(t[i], t[k]) {
      if k > j && Above(t[i], t[k]) {
        InsideSubtree(t, i, j, k);
      }
    }
  }

  lemma RootSkip(t: seq<string>)
    requires Prepared(t)
    ensures SkipIs(t, 0, |t| - 1)
  {
  }

  // ----- Relative names

  /** Where the name relative to directory `dir` starts. */
  function Offset(dir: string): nat {
    if dir == "" then 0 else |dir| + 1
  }

  function Joined(dir: string, component: string): string {
    if dir == "" then component else dir + "/" + component
  }

  lemma RelativeName(dir: string, name: string)
    requires Under(dir, name)
    ensures Offset(dir) <= |name| && name == Joined(dir, name[Offset(dir)..])
  {
    if dir != "" {
      assert name == name[..|dir|] + [name[|dir|]] + name[|dir| + 1..];
    }
  }

  lemma JoinedUnder(dir: string, component: string)
    ensures Under(dir, Joined(dir, component)) && Joined(dir, component)[Offset(dir)..] == component
  {
  }

  lemma CompareRelative(dir: string, a: string, b: string)
    requires Under(dir, a) && Under(dir, b)
    ensures Offset(dir) <= |a| && Offset(dir) <= |b|
    ensures Compare(a, b) == Compare(a[Offset(dir)..], b[Offset(dir)..])
  {
    RelativeName(dir, a);
    RelativeName(dir, b);
    if dir != "" {
      CompareAppend(dir + "/", a[Offset(dir)..], b[Offset(dir)..]);
    }
  }

  // ----- Direct children

  predicate DirectChild(dir: string, name: string) {
    Under(dir, name) && '/' !in name[if dir == "" then 0 else |dir| + 1..]
  }

  /** An entry below another entry of the same directory is not a direct child. */
  lemma GrandchildIsNotChild(dir: string, child: string, name: string)
    requires Under(dir, child) && Above(child, name)
    ensures Under(dir, name) && !DirectChild(dir, name)
  {
    RelativeName(dir, child);
    var off := Offset(dir);
    assert name[off..][|child| - off] == '/';
  }

  /** An entry under a directory that is not a direct child has a directory strictly between. */
  lemma ChildOrNested(dir: string, name: string) returns (q: string)
    requires ValidName(name) && Under(dir, name) && !DirectChild(dir, name)
    requires dir == "" || ValidName(dir)
    ensures Above(q, name) && Under(dir, q)
  {
    RelativeName(dir, name);
    var off := Offset(dir);
    var k :| 0 <= k < |name[off..]| && name[off..][k] == '/';
    q := name[..off + k];
    assert name[off + k] == '/';
    if dir != "" && k == 0 {
      q := name[..off];
    }
  }
}

module Ino {
  import opened Strings
  import opened InoNames
  import Integers
  import Sorting

  const X_FAKE := 1

  /** The width of an entry's numbers. */
  const U16 := 0x1_0000
  type Uint16 = x: nat | x < 0x1_0000

  datatype Entry = Entry(name: string, elementnoPlus1: Uint16, xindex: Uint16, skip: Uint16, flags: Uint16)

  function EntryCompare(a: Entry, b: Entry): int {
    Compare(a.name, b.name)
  }

  lemma EntryCompareIsOrder()
    ensures Sorting.TotalPreorder(EntryCompare)
  {
    forall x: Entry, y: Entry, z: Entry ensures Sorting.Orderly(EntryCompare, x, y, z) {
      CompareFlip(x.name, y.name);
      if Compare(x.name, y.name) <= 0 && Compare(y.name, z.name) <= 0 { CompareTrans(x.name, y.name, z.name); }
    }
  }

  ghost function Names(s: seq<Entry>): (t: seq<string>)
    ensures |t| == |s| && forall i :: 0 <= i < |s| ==> t[i] == s[i].name
  {
    seq(|s|, i => if 0 <= i < |s| then s[i].name else "")
  }

  // ----- What sorting keeps

  ghost predicate DistinctNames(s: seq<Entry>) {
    forall i, j :: 0 <= i < j < |s| ==> s[i].name != s[j].name
  }

  ghost predicate DistinctNumbers(s: seq<Entry>) {
    forall i, j :: 0 <= i < j < |s| ==> s[i].elementnoPlus1 != s[j].elementnoPlus1
  }

  /** Entry numbers count the router's elements first, then the synthesised directories. */
  ghost predicate EntryOk(e: Entry, names: seq<string>, n: nat) {
    && 1 <= e.elementnoPlus1 <= n
    && e.skip == 0
    && (e.elementnoPlus1 <= |names| ==> e.name == names[e.elementnoPlus1 - 1] && e.flags == 0)
    && (e.elementnoPlus1 > |names| ==> e.flags == X_FAKE)
  }

  ghost predicate Numbered(s: seq<Entry>, k: nat) {
    exists i :: 0 <= i < |s| && s[i].elementnoPlus1 == k
  }

  /** Every number from 1 to the number of entries is used once. */
  ghost predicate Numbering(s: seq<Entry>, names: seq<string>) {
    && DistinctNumbers(s)
    && (forall i :: 0 <= i < |s| ==> EntryOk(s[i], names, |s|))
    && (forall k :: 1 <= k <= |s| ==> Numbered(s, k))
  }

  ghost predicate Unskipped(s: seq<Entry>) {
    forall i :: 0 <= i < |s| ==> s[i].skip == 0
  }

  /** Every name is used once, and every number too while numbers fit into 16 bits. */
  ghost predicate Content(s: seq<Entry>, names: seq<string>) {
    DistinctNames(s) && Unskipped(s) && (|s| < U16 ==> Numbering(s, names))
  }

  lemma ContentKept(s: seq<Entry>, t: seq<Entry>, names: seq<string>)
    requires multiset(s) == multiset(t) && Content(s, names)
    ensures Content(t, names)
    ensures forall p :: p in Names(s) <==> p in Names(t)
  {
    hide Numbering, Names;
    assert |s| == |multiset(s)| && |t| == |multiset(t)|;
    Sorting.DistinctKept(s, t, (e: Entry) => e.name);
    forall i | 0 <= i < |t| ensures t[i].skip == 0 {
      assert t[i] in multiset(s);
    }
    if |s| < U16 {
      NumberingKept(s, t, names);
    }
    forall p ensures p in Names(s) <==> p in Names(t) {
      NameKept(s, t, p);
      NameKept(t, s, p);
    }
  }

  lemma NumberingKept(s: seq<Entry>, t: seq<Entry>, names: seq<string>)
    requires multiset(s) == multiset(t) && Numbering(s, names)
    ensures Numbering(t, names)
  {
    assert |s| == |multiset(s)| && |t| == |multiset(t)|;
    Sorting.DistinctKept(s, t, (e: Entry) => e.elementnoPlus1);
    forall i | 0 <= i < |t| ensures EntryOk(t[i], names, |t|) {
      assert t[i] in multiset(s);
    }
    forall k | 1 <= k <= |t| ensures Numbered(t, k) {
      assert Numbered(s, k);
      var i :| 0 <= i < |s| && s[i].elementnoPlus1 == k;
      assert s[i] in multiset(t);
    }
  }

  lemma NameKept(s: seq<Entry>, t: seq<Entry>, p: string)
    requires multiset(s) == multiset(t)
    ensures p in Names(s) ==> p in Names(t)
  {
    if p in Names(s) {
      var i :| 0 <= i < |s| && Names(s)[i] == p;
      assert s[i] in multiset(t);
      var j :| 0 <= j < |t| && t[j] == s[i];
      assert Names(t)[j] == p;
    }
  }

  // ----- Adding the missing directories

  /** Entries from `nelem` on are synthesised directories with names `extra`. */
  ghost predicate Added(s: seq<Entry>, nelem: nat, extra: seq<string>) {
    && nelem + |extra| <= |s|
    && forall k :: 0 <= k < |extra| ==>
         s[nelem + k] == Entry(extra[k], (nelem + k) % U16, s[nelem + k].xindex, 0, X_FAKE)
  }

  lemma MissingStep(name: string, last: string)
    ensures var slash := FindRight(name);
            if slash >= 0 && !(name[..slash] <= last)
                then Missing(name, last) == [name[..slash]] + Missing(name[..slash], last)
            else Missing(name, last) == []
  {
  }

  method Grow(x: array<Entry>, minSize: nat) returns (y: array<Entry>)
    ensures y.Length >= minSize && y.Length >= x.Length && y[..x.Length] == x[..]
    ensures y == x || fresh(y)
  {
    if x.Length >= minSize { return x; }
    var cap := if x.Length > 0 then x.Length else 128;
    while cap < minSize
      invariant cap >= x.Length && cap > 0
      decreases minSize - cap
    {
      cap := cap * 2;
    }
    y := new Entry[cap];
    var i := 0;
    while i < x.Length
      invariant 0 <= i <= x.Length && y[..i] == x[..i]
    {
      y[i] := x[i];
      i := i + 1;
    }
  }

  /** Write one synthesised directory at position `n`, growing the table if it is full. */
  method AppendFake(x: array<Entry>, nelem: nat, n: nat, name: string, ghost extra: seq<string>)
      returns (y: array<Entry>)
    requires n == nelem + |extra| <= x.Length && Added(x[..], nelem, extra)
    modifies x
    ensures y == x || fresh(y)
    ensures n < y.Length && y[..nelem] == old(x[..nelem]) && Added(y[..], nelem, extra + [name])
  {
    y := Grow(x, n + 1);
    GrownKeeps(x[..], y[..], nelem, extra);
    assert y[..][..nelem] == x[..][..nelem];
    ghost var b := y[..];
    y[n] := y[n].(name := name, elementnoPlus1 := n % U16, skip := 0, flags := X_FAKE);
    AddedSnoc(b, y[..], nelem, extra, name);
    assert y[..][..nelem] == b[..nelem];
  }

  lemma TakeOne(all: seq<string>, k: nat, c: string, rest: seq<string>)
    requires k <= |all| && all[k..] == [c] + rest
    ensures k < |all| && all[k] == c && all[k + 1..] == rest && all[..k] + [c] == all[..k + 1]
  {
    assert all[k..][0] == all[k];
    assert all[k + 1..] == all[k..][1..];
  }

  lemma TakeNone(all: seq<string>, k: nat)
    requires k <= |all| && all[k..] == []
    ensures k == |all| && all[..k] == all
  {
  }

  lemma TakeStart(extra: seq<string>, more: seq<string>)
    ensures (extra + more)[..|extra|] == extra && (extra + more)[|extra|..] == more
  {
  }

  /** The directories missing for one name, written from position `n` on. */
  method AddMissingFor(x: array<Entry>, nelem: nat, n0: nat, name: string, last: string, ghost extra: seq<string>)
    returns (y: array<Entry>, n: nat)
    requires 1 <= nelem <= n0 <= x.Length && n0 == nelem + |extra| && Added(x[..], nelem, extra)
    modifies x
    ensures y == x || fresh(y)
    ensures n == n0 + |Missing(name, last)| <= y.Length
    ensures y[..nelem] == old(x[..nelem]) && Added(y[..], nelem, extra + Missing(name, last))
  {
    hide *;
    y, n := x, n0;
    var cur := name;
    var slash := FindRight(cur);
    ghost var all := extra + Missing(name, last);
    TakeStart(extra, Missing(name, last));
    while slash >= 0 && !(|last| >= slash && cur[..slash] == last[..slash])
      invariant y == x || fresh(y)
      invariant slash == FindRight(cur) && nelem <= n <= y.Length && n - nelem <= |all|
      invariant all[n - nelem..] == Missing(cur, last)
      invariant y[..nelem] == old(x[..nelem]) && Added(y[..], nelem, all[..n - nelem])
      decreases |cur|
    {
      MissingStep(cur, last);
      TakeOne(all, n - nelem, cur[..slash], Missing(cur[..slash], last));
      y := AppendFake(y, nelem, n, cur[..slash], all[..n - nelem]);
      n := n + 1;
      cur := cur[..slash];
      slash := FindRight(cur);
    }
    MissingStep(cur, last);
    TakeNone(all, n - nelem);
  }

  lemma GrownKeeps(s: seq<Entry>, t: seq<Entry>, nelem: nat, extra: seq<string>)
    requires |s| <= |t| && t[..|s|] == s && Added(s, nelem, extra)
    ensures Added(t, nelem, extra) && t[..nelem] == s[..nelem]
  {
    forall k | 0 <= k < |s| ensures t[k] == s[k] { assert t[..|s|][k] == s[k]; }
  }

  lemma AddedSnoc(s: seq<Entry>, t: seq<Entry>, nelem: nat, extra: seq<string>, p: string)
    requires Added(s, nelem, extra) && nelem + |extra| < |s| == |t|
    requires t == s[nelem + |extra| := Entry(p, (nelem + |extra|) % U16, t[nelem + |extra|].xindex, 0, X_FAKE)]
    ensures Added(t, nelem, extra + [p]) && t[..nelem] == s[..nelem]
  {
  }

  lemma NoneMissing(s: seq<string>, t: seq<Entry>, nelem: nat)
    requires nelem <= |t|
    ensures AllMissing(s, 0) == [] && Added(t, nelem, [])
  {
  }

  /** The loop over the sorted names. */
  method AddMissing(x: array<Entry>, nelem: nat) returns (y: array<Entry>, n: nat)
    requires 1 <= nelem <= x.Length && x[0].name == ""
    modifies x
    ensures y == x || fresh(y)
    ensures y.Length >= nelem && y[..nelem] == old(x[..nelem])
    ensures var extra := AllMissing(old(Names(x[1..nelem])), nelem - 1);
            n == nelem + |extra| <= y.Length && Added(y[..], nelem, extra)
  {
    hide Added, Missing, AllMissing;
    ghost var s, x0 := Names(x[1..nelem]), x[..nelem];
    NoneMissing(s, x[..], nelem);
    y, n := x, nelem;
    var i := 1;
    while i < nelem
      invariant 1 <= i <= nelem <= y.Length && (y == x || fresh(y))
      invariant y[..nelem] == x0
      invariant n == nelem + |AllMissing(s, i - 1)| <= y.Length
      invariant Added(y[..], nelem, AllMissing(s, i - 1))
    {
      AllMissingStep(s, i);
      assert y[i] == x0[i] && y[i - 1] == x0[i - 1];
      assert y[i].name == s[i - 1] && y[i - 1].name == Before(s, i - 1);
      y, n := AddMissingFor(y, nelem, n, y[i].name, y[i - 1].name, AllMissing(s, i - 1));
      i := i + 1;
    }
  }

  // ----- The table before and after the second sort

  lemma SortedStrict(s: seq<Entry>)
    requires Sorting.SortedBy(s, EntryCompare) && DistinctNames(s)
    ensures StrictlySorted(Names(s))
  {
    forall i, j | 0 <= i < j < |s| ensures Less(s[i].name, s[j].name) {
      CompareEqual(s[i].name, s[j].name);
      assert EntryCompare(s[i], s[j]) <= 0;
    }
  }

  /** The sorted elements followed by their missing directories. */
  ghost predicate WithMissing(s: seq<Entry>, t: seq<Entry>) {
    var extra := AllMissing(Names(s), |s|);
    && |t| == |s| + |extra| && t[..|s|] == s
    && forall k :: 0 <= k < |extra| ==> t[|s| + k] == Entry(extra[k], (|s| + 1 + k) % U16, t[|s| + k].xindex, 0, X_FAKE)
  }

  lemma WithMissingName(s: seq<Entry>, t: seq<Entry>, i: nat)
    requires WithMissing(s, t) && i < |t|
    ensures if i < |s| then t[i] == s[i] else t[i].name in AllMissing(Names(s), |s|)
    ensures i >= |s| ==> t[i].name == AllMissing(Names(s), |s|)[i - |s|]
    ensures i >= |s| ==> t[i].elementnoPlus1 == (i + 1) % U16 && t[i].skip == 0 && t[i].flags == X_FAKE
  {
    if i < |s| {
      assert t[..|s|][i] == s[i];
    } else {
      var extra := AllMissing(Names(s), |s|);
      var k := i - |s|;
      assert t[|s| + k].name == extra[k];
    }
  }

  lemma WithMissingNames(s: seq<Entry>, t: seq<Entry>, p: string)
    requires WithMissing(s, t) && NamesOk(Names(s))
    ensures p in Names(t) <==> exists k :: 0 <= k < |s| && Along(p, Names(s)[k])
  {
    var extra := AllMissing(Names(s), |s|);
    ClosureComplete(Names(s), p);
    if p in Names(s) {
      var i :| 0 <= i < |s| && Names(s)[i] == p;
      WithMissingName(s, t, i);
      assert Names(t)[i] == p;
    }
    if p in extra {
      var k :| 0 <= k < |extra| && extra[k] == p;
      WithMissingName(s, t, |s| + k);
      assert Names(t)[|s| + k] == p;
    }
    if p in Names(t) {
      var i :| 0 <= i < |t| && Names(t)[i] == p;
      WithMissingName(s, t, i);
      assert i < |s| ==> Names(s)[i] == p;
    }
  }

  lemma WithMissingDistinct(s: seq<Entry>, t: seq<Entry>)
    requires WithMissing(s, t) && NamesOk(Names(s)) && DistinctNames(s)
    ensures DistinctNames(t)
  {
    var extra := AllMissing(Names(s), |s|);
    AllMissingDistinct(Names(s), |s|);
    forall i, j | 0 <= i < j < |t| ensures t[i].name != t[j].name {
      WithMissingName(s, t, i);
      WithMissingName(s, t, j);
      if i < |s| <= j {
        MissingAreNew(Names(s), |s|, t[j].name);
        assert Names(s)[i] == s[i].name;
      }
    }
  }

  lemma WithMissingContent(s: seq<Entry>, t: seq<Entry>, names: seq<string>)
    requires WithMissing(s, t) && NamesOk(Names(s)) && Content(s, names) && |s| == |names|
    ensures Content(t, names)
  {
    hide AllMissing, Numbering;
    WithMissingDistinct(s, t);
    forall i | 0 <= i < |t| ensures t[i].skip == 0 {
      WithMissingName(s, t, i);
    }
    if |t| < U16 {
      WithMissingNumbering(s, t, names);
    }
  }

  lemma WithMissingNumbering(s: seq<Entry>, t: seq<Entry>, names: seq<string>)
    requires WithMissing(s, t) && Numbering(s, names) && |s| == |names| && |t| < U16
    ensures Numbering(t, names)
  {
    hide AllMissing, WithMissing;
    assert |s| <= |t| && t[..|s|] == s by {
      WithMissingPrefix(s, t);
    }
    forall i | 0 <= i < |t| ensures EntryOk(t[i], names, |t|) && (i >= |s| ==> t[i].elementnoPlus1 == i + 1) {
      WithMissingName(s, t, i);
      if i < |s| { assert EntryOk(s[i], names, |s|); }
    }
    forall i, j | 0 <= i < j < |t| ensures t[i].elementnoPlus1 != t[j].elementnoPlus1 {
      if i < |s| {
        assert t[..|s|][i] == s[i] && EntryOk(s[i], names, |s|);
        if j < |s| { assert t[..|s|][j] == s[j]; }
      }
    }
    forall k | 1 <= k <= |t| ensures Numbered(t, k) {
      if k <= |s| {
        assert Numbered(s, k);
        var i :| 0 <= i < |s| && s[i].elementnoPlus1 == k;
        assert t[..|s|][i] == s[i];
        assert t[i].elementnoPlus1 == k;
      } else {
        assert t[k - 1].elementnoPlus1 == k;
      }
    }
  }

  lemma WithMissingPrefix(s: seq<Entry>, t: seq<Entry>)
    requires WithMissing(s, t)
    ensures |s| <= |t| && t[..|s|] == s
  {
  }

  /** Exactly the given names and their directories. */
  ghost predicate Holds(t: seq<string>, names: seq<string>) {
    forall p :: p in t <==> exists k :: 0 <= k < |names| && Along(p, names[k])
  }

  lemma PreparedTable(s: seq<Entry>, names: seq<string>)
    requires s != [] && s[0].name == "" && StrictlySorted(Names(s[1..])) && Holds(Names(s[1..]), names)
    requires forall k :: 0 <= k < |names| ==> ValidName(names[k])
    ensures Prepared(Names(s))
  {
    var t, u := Names(s), Names(s[1..]);
    forall i | 1 <= i < |t| ensures t[i] == u[i - 1] && ValidName(t[i]) {
      assert u[i - 1] in u;
      var k :| 0 <= k < |names| && Along(t[i], names[k]);
      if Above(t[i], names[k]) { AboveValid(t[i], names[k]); }
    }
    forall i, p | 1 <= i < |t| && Above(p, t[i]) ensures p in t {
      assert u[i - 1] in u;
      var k :| 0 <= k < |names| && Along(t[i], names[k]);
      if Above(t[i], names[k]) { AboveTrans(p, t[i], names[k]); }
      assert Along(p, names[k]);
      assert p in u;
      var m :| 0 <= m < |u| && u[m] == p;
      assert t[m + 1] == p;
    }
    forall i, j | 0 <= i < j < |t| ensures Less(t[i], t[j]) {
      if i > 0 { assert Less(u[i - 1], u[j - 1]); }
    }
  }

  // ----- Subtree sizes

  /** `t` differs from `s` in subtree sizes only. */
  ghost predicate SameButSkips(s: seq<Entry>, t: seq<Entry>) {
    |s| == |t| && forall i :: 0 <= i < |s| ==> t[i] == s[i].(skip := t[i].skip)
  }

  lemma SkippedNames(s: seq<Entry>, t: seq<Entry>)
    requires SameButSkips(s, t)
    ensures Names(s) == Names(t)
  {
    forall i | 0 <= i < |s| ensures Names(s)[i] == Names(t)[i] { assert t[i].name == s[i].name; }
  }

  /** The stored subtree size is the size modulo 2^16. */
  ghost predicate SkipStored(t: seq<string>, i: nat, stored: nat) {
    exists skip: nat :: SkipIs(t, i, skip) && stored == skip % U16
  }

  /** The subtree walk from entry `i`. */
  method CountSkip(x: array<Entry>, i: nat, n: nat)
    requires 1 <= i < n <= x.Length && x[i].skip == 0 && Prepared(Names(x[..n]))
    modifies x
    ensures x[..] == old(x[..])[i := old(x[i]).(skip := x[i].skip)]
    ensures SkipStored(old(Names(x[..n])), i, x[i].skip)
  {
    hide Prepared, SkipIs, StrictlySorted;
    ghost var t, x0 := Names(x[..n]), x[..];
    var name := x[i].name;
    var length := |name|;
    var j := i + 1;
    while j < n && |x[j].name| > length && x[j].name[length] == '/'
      invariant i < j <= n
      invariant x[..] == x0[i := x0[i].(skip := (j - i - 1) % U16)]
      invariant forall k :: i < k < j ==> Above(t[i], t[k])
    {
      assert x[j].name == t[j] && name == t[i];
      SlashMeansUnder(t, i, j);
      assert x[j].name[..length] == name;
      assert name != "" by { PreparedValid(t, i); }
      OneMore(j - i - 1);
      x[i] := x[i].(skip := (x[i].skip + 1) % U16);
      j := j + 1;
    }
    assert j < n ==> x[..][j] == x0[j] && t[j] == x[j].name;
    SubtreeEnds(t, i, j);
    assert SkipIs(t, i, j - i - 1);
  }

  lemma OneMore(n: nat)
    ensures (n % U16 + 1) % U16 == (n + 1) % U16
  {
  }

  lemma PreparedValid(t: seq<string>, i: nat)
    requires Prepared(t) && 1 <= i < |t|
    ensures ValidName(t[i])
  {
  }

  method CountSkips(x: array<Entry>, n: nat)
    requires 1 <= n <= x.Length && Prepared(Names(x[..n]))
    requires forall i :: 1 <= i < n ==> x[i].skip == 0
    modifies x
    ensures x[n..] == old(x[n..]) && SameButSkips(old(x[..n]), x[..n])
    ensures forall i :: 0 <= i < n ==> SkipStored(Names(x[..n]), i, x[i].skip)
  {
    hide Prepared, SkipIs, Names, SkipStored;
    ghost var t, x0 := Names(x[..n]), x[..];
    assert |t| == n by { NamesLength(x[..n]); }
    RootStored(t);
    x[0] := x[0].(skip := (n - 1) % U16);
    assert SameButSkips(x0[..n], x[..n]);
    var i := 1;
    while i < n - 1
      invariant 1 <= i && (i <= n - 1 || n == 1)
      invariant x[n..] == x0[n..] && SameButSkips(x0[..n], x[..n])
      invariant forall k :: 0 <= k < i && k < n ==> SkipStored(t, k, x[k].skip)
      invariant forall k :: i <= k < n ==> x[k].skip == 0
    {
      SkippedNames(x0[..n], x[..n]);
      ghost var b := x[..];
      CountSkip(x, i, n);
      assert forall k :: 0 <= k < x.Length && k != i ==> x[k] == b[k];
      i := i + 1;
    }
    if n > 1 {
      LastSkip(t, n - 1);
    }
    SkippedNames(x0[..n], x[..n]);
  }

  lemma NamesLength(s: seq<Entry>)
    ensures |Names(s)| == |s|
  {
  }

  lemma LastSkip(t: seq<string>, i: nat)
    requires i == |t| - 1
    ensures SkipStored(t, i, 0)
  {
    assert SkipIs(t, i, 0);
  }

  lemma RootStored(t: seq<string>)
    requires Prepared(t)
    ensures SkipStored(t, 0, (|t| - 1) % U16)
  {
    RootSkip(t);
  }

  /** In a table that fits, stored sizes are sizes. */
  lemma SkipsFit(t: seq<string>, i: nat, stored: nat)
    requires |t| <= U16 && SkipStored(t, i, stored)
    ensures SkipIs(t, i, stored)
  {
    var skip: nat :| SkipIs(t, i, skip) && stored == skip % U16;
  }

  // ----- The inverse index

  ghost predicate SameButXindex(s: seq<Entry>, t: seq<Entry>) {
    |s| == |t| && forall i :: 0 <= i < |s| ==> t[i] == s[i].(xindex := t[i].xindex)
  }

  /** `xindex` inverts the entry numbers. */
  ghost predicate Inverse(s: seq<Entry>) {
    forall i :: 1 <= i < |s| ==> InverseAt(s, i)
  }

  ghost predicate InverseAt(s: seq<Entry>, i: nat)
    requires i < |s|
  {
    && 1 <= s[i].elementnoPlus1 < |s| && s[s[i].elementnoPlus1].xindex == i
    && 1 <= s[i].xindex < |s| && s[s[i].xindex].elementnoPlus1 == i
  }

  ghost predicate NumbersOk(s: seq<Entry>) {
    && (forall i :: 1 <= i < |s| ==> 1 <= s[i].elementnoPlus1 < |s|)
    && (forall a, b :: 1 <= a < b < |s| ==> s[a].elementnoPlus1 != s[b].elementnoPlus1)
  }

  ghost predicate Indexed(s: seq<Entry>, t: seq<Entry>, i: nat)
    requires NumbersOk(s)
  {
    && i <= |s| && SameButXindex(s, t)
    && (s != [] ==> t[0] == s[0])
    && forall k :: 1 <= k < i ==> Placed(s, t, k)
  }

  ghost predicate Placed(s: seq<Entry>, t: seq<Entry>, k: nat)
    requires k < |s| == |t|
  {
    s[k].elementnoPlus1 < |t| && t[s[k].elementnoPlus1].xindex == k
  }

  lemma IndexedStep(s: seq<Entry>, t: seq<Entry>, i: nat)
    requires NumbersOk(s) && 1 <= i < |s| <= U16 && Indexed(s, t, i)
    ensures var e := t[i].elementnoPlus1; 1 <= e < |t| && Indexed(s, t[e := t[e].(xindex := i % U16)], i + 1)
  {
    assert t[i] == s[i].(xindex := t[i].xindex);
    var e := t[i].elementnoPlus1;
    var t' := t[e := t[e].(xindex := i)];
    forall k | 1 <= k < i + 1 ensures Placed(s, t', k) {
      if k < i { assert Placed(s, t, k); }
    }
  }

  lemma NumbersOfContent(s: seq<Entry>, names: seq<string>)
    requires s != [] && Numbering(s[1..], names)
    ensures NumbersOk(s) && forall k :: 1 <= k < |s| ==> Numbered(s[1..], k)
  {
    var u := s[1..];
    forall i | 1 <= i < |s| ensures s[i] == u[i - 1] && 1 <= s[i].elementnoPlus1 < |s| {
      assert EntryOk(u[i - 1], names, |u|);
    }
  }

  /** The entries' numbers fit, so that each is a place in the table of its own. */
  method FillXindex(x: array<Entry>, n: nat)
    requires 1 <= n <= x.Length && (n <= U16 ==> NumbersOk(x[..n]))
    modifies x
    ensures SameButXindex(old(x[..n]), x[..n])
    ensures n <= U16 ==> Indexed(old(x[..n]), x[..n], n)
  {
    hide Indexed, NumbersOk;
    ghost var s := x[..n];
    if n <= U16 {
      IndexedStart(s);
    }
    var i := 1;
    while i < n
      invariant 1 <= i <= n
      invariant SameButXindex(s, x[..n])
      invariant n <= U16 ==> Indexed(s, x[..n], i)
    {
      ghost var b := x[..n];
      var e := x[i].elementnoPlus1;
      if n <= U16 {
        IndexedStep(s, b, i);
      }
      x[e] := x[e].(xindex := i % U16);
      assert x[..n] == b[e := b[e].(xindex := i % U16)];
      i := i + 1;
    }
  }

  lemma IndexedStart(s: seq<Entry>)
    requires NumbersOk(s) && s != []
    ensures Indexed(s, s, 1)
  {
  }

  lemma InverseDone(s: seq<Entry>, t: seq<Entry>)
    requires |s| >= 1 && NumbersOk(s) && Indexed(s, t, |s|)
    requires forall k :: 1 <= k < |s| ==> Numbered(s[1..], k)
    ensures Inverse(t)
  {
    forall i | 1 <= i < |t| ensures InverseAt(t, i) {
      assert Placed(s, t, i);
      assert Numbered(s[1..], i);
      var j :| 0 <= j < |s[1..]| && s[1..][j].elementnoPlus1 == i;
      assert s[1..][j] == s[j + 1];
      assert Placed(s, t, j + 1);
    }
  }

  // ----- Preparing the table

  /** What a prepared table promises. */
  ghost predicate TableOk(s: seq<Entry>, names: seq<string>) {
    && s != [] && Prepared(Names(s))
    && Holds(Names(s[1..]), names)
    && (forall i :: 0 <= i < |s| ==> SkipIs(Names(s), i, s[i].skip))
    && s[0].elementnoPlus1 == 0 && s[0].xindex == 0
    && Inverse(s)
    && (forall k :: 1 <= k < |s| ==> NumberedRight(s, names, k))
  }

  /** Entry number `k` is the router's element `k - 1`, or a synthesised directory. */
  ghost predicate NumberedRight(s: seq<Entry>, names: seq<string>, k: nat)
    requires 1 <= k < |s|
  {
    && s[k].xindex < |s|
    && var e := s[s[k].xindex];
       if k <= |names| then e.name == names[k - 1] && e.flags == 0 else e.flags == X_FAKE && e.name !in names
  }

  lemma SortedContent(s: seq<Entry>, t: seq<Entry>, n: nat, names: seq<string>)
    requires 1 <= n <= |s| && Content(s[1..n], names)
    requires Sorting.Rearranged(s, t, 1, n) && Sorting.SortedBy(t[1..n], EntryCompare)
    ensures Content(t[1..n], names) && StrictlySorted(Names(t[1..n])) && t[0] == s[0]
    ensures forall p :: p in Names(s[1..n]) <==> p in Names(t[1..n])
  {
    ContentKept(s[1..n], t[1..n], names);
    SortedStrict(t[1..n]);
    assert s[..1][0] == t[..1][0];
  }

  /** Sort entries `[1, n)` by name. */
  method SortEntries(x: array<Entry>, n: nat, sizeofSizeT: nat, ghost names: seq<string>)
    requires 1 <= n <= x.Length && n - 1 < Integers.Pow2(8 * sizeofSizeT) && Content(x[1..n], names)
    modifies x
    ensures Content(x[1..n], names) && StrictlySorted(Names(x[1..n])) && x[0] == old(x[0])
    ensures forall p :: p in old(Names(x[1..n])) <==> p in Names(x[1..n])
  {
    hide *;
    ghost var s := x[..];
    assert s[1..n] == x[1..n];
    Sorting.QSort(x, 1, n - 1, EntryCompare, sizeofSizeT);
    EntryCompareIsOrder();
    assert x[..][1..n] == x[1..n];
    SortedContent(s, x[..], n, names);
  }

  method Fill(x: array<Entry>, names: seq<string>)
    requires x.Length > |names|
    requires forall i, j :: 0 <= i < j < |names| ==> names[i] != names[j]
    modifies x
    ensures x[0] == Entry("", 0, 0, 0, 0)
    ensures Content(x[1..|names| + 1], names) && Names(x[1..|names| + 1]) == names
  {
    x[0] := Entry("", 0, 0, 0, 0);
    var i := 1;
    while i <= |names|
      invariant 1 <= i <= |names| + 1
      invariant x[0] == Entry("", 0, 0, 0, 0)
      invariant forall k :: 1 <= k < i ==> x[k] == Entry(names[k - 1], k % U16, x[k].xindex, 0, 0)
    {
      x[i] := x[i].(name := names[i - 1], elementnoPlus1 := i % U16, skip := 0, flags := 0);
      i := i + 1;
    }
    ghost var s := x[1..|names| + 1];
    forall k | 0 <= k < |s| ensures s[k] == Entry(names[k], (k + 1) % U16, s[k].xindex, 0, 0) {
      assert s[k] == x[k + 1];
    }
    FilledNumbering(s, names);
  }

  lemma FilledNumbering(s: seq<Entry>, names: seq<string>)
    requires |s| == |names|
    requires forall k :: 0 <= k < |s| ==> s[k] == Entry(names[k], (k + 1) % U16, s[k].xindex, 0, 0)
    ensures |s| < U16 ==> Numbering(s, names)
  {
    forall k | 1 <= k <= |s| && |s| < U16 ensures Numbered(s, k) {
      assert s[k - 1].elementnoPlus1 == k;
    }
  }

  /** From the filled table to the one with all directories, sorted. */
  lemma AddedTable(s: seq<Entry>, t: seq<Entry>, nelem: nat, n: nat, names: seq<string>)
    requires nelem == |names| + 1 <= |s| && nelem <= n <= |t| && t[..nelem] == s[..nelem]
    requires Content(s[1..nelem], names) && StrictlySorted(Names(s[1..nelem]))
    requires forall p :: p in names <==> p in Names(s[1..nelem])
    requires forall k :: 0 <= k < |names| ==> ValidName(names[k])
    requires var extra := AllMissing(Names(s[1..nelem]), nelem - 1); n == nelem + |extra| && Added(t, nelem, extra)
    ensures Content(t[1..n], names) && Holds(Names(t[1..n]), names)
    ensures n - 1 == |Closure(names)|
    ensures n == nelem ==> StrictlySorted(Names(t[1..n]))
  {
    hide Content, AllMissing, ValidName, StrictlySorted, Along, Closure;
    var u, v := s[1..nelem], t[1..n];
    ValidNames(Names(u), names);
    AddedWithMissing(s, t, nelem, n);
    WithMissingContent(u, v, names);
    forall p ensures p in Names(v) <==> exists k :: 0 <= k < |names| && Along(p, names[k]) {
      WithMissingNames(u, v, p);
      AlongSame(Names(u), names, p);
    }
    ClosureSize(v, names);
    assert n == nelem ==> v == u by { if n == nelem { assert v == t[..nelem][1..] && u == s[..nelem][1..]; } }
  }

  lemma ValidNames(s: seq<string>, names: seq<string>)
    requires forall k :: 0 <= k < |names| ==> ValidName(names[k])
    requires forall p :: p in names <==> p in s
    requires StrictlySorted(s)
    ensures NamesOk(s)
  {
    forall i | 0 <= i < |s| ensures ValidName(s[i]) { assert s[i] in s; }
  }

  lemma AddedWithMissing(s: seq<Entry>, t: seq<Entry>, nelem: nat, n: nat)
    requires 1 <= nelem <= |s| && nelem <= n <= |t| && t[..nelem] == s[..nelem]
    requires var extra := AllMissing(Names(s[1..nelem]), nelem - 1); n == nelem + |extra| && Added(t, nelem, extra)
    ensures WithMissing(s[1..nelem], t[1..n])
  {
    hide AllMissing, Names, Added;
    var u, v := s[1..nelem], t[1..n];
    SharedStart(s, t, nelem, n);
    AddedShift(t, nelem, n, AllMissing(Names(u), |u|));
  }

  lemma SharedStart(s: seq<Entry>, t: seq<Entry>, nelem: nat, n: nat)
    requires 1 <= nelem <= |s| && nelem <= n <= |t| && t[..nelem] == s[..nelem]
    ensures t[1..n][..nelem - 1] == s[1..nelem]
  {
    assert t[1..n][..nelem - 1] == t[..nelem][1..] && s[1..nelem] == s[..nelem][1..];
  }

  /** Places counted without the root. */
  lemma AddedShift(t: seq<Entry>, nelem: nat, n: nat, extra: seq<string>)
    requires 1 <= nelem && n == nelem + |extra| <= |t| && Added(t, nelem, extra)
    ensures forall k :: 0 <= k < |extra| ==>
      t[1..n][nelem - 1 + k] == Entry(extra[k], (nelem + k) % U16, t[1..n][nelem - 1 + k].xindex, 0, X_FAKE)
  {
    forall k | 0 <= k < |extra|
      ensures t[1..n][nelem - 1 + k] == Entry(extra[k], (nelem + k) % U16, t[1..n][nelem - 1 + k].xindex, 0, X_FAKE)
    {
      assert t[1..n][nelem - 1 + k] == t[nelem + k];
    }
  }

  lemma AlongSame(a: seq<string>, b: seq<string>, p: string)
    requires forall q :: q in b <==> q in a
    ensures (exists k :: 0 <= k < |a| && Along(p, a[k])) <==> exists k :: 0 <= k < |b| && Along(p, b[k])
  {
    if k :| 0 <= k < |a| && Along(p, a[k]) {
      assert a[k] in b;
      var m :| 0 <= m < |b| && b[m] == a[k];
      assert Along(p, b[m]);
    }
    if k :| 0 <= k < |b| && Along(p, b[k]) {
      assert b[k] in a;
      var m :| 0 <= m < |a| && a[m] == b[k];
      assert Along(p, a[m]);
    }
  }

  lemma FinishedTable(s: seq<Entry>, t: seq<Entry>, u: seq<Entry>, names: seq<string>)
    requires s != [] && |s| <= U16 && s[0] == Entry("", 0, 0, 0, 0) && Content(s[1..], names)
    requires Prepared(Names(s)) && Holds(Names(s[1..]), names)
    requires SameButSkips(s, t) && (forall i :: 0 <= i < |t| ==> SkipStored(Names(t), i, t[i].skip))
    requires NumbersOk(t) && Indexed(t, u, |t|)
    requires |names| < |s|
    ensures TableOk(u, names)
  {
    hide Prepared, Holds, SkipIs, SkipStored, Numbering, Names, Inverse;
    ListingDone(s, t, u, names);
    SkippedNames(s, t);
    forall i | 0 <= i < |u| ensures SkipIs(Names(u), i, u[i].skip) {
      SkipsFit(Names(u), i, u[i].skip);
    }
    NumbersOfContent(s, names);
    forall k | 1 <= k < |t| ensures Numbered(t[1..], k) {
      assert Numbered(s[1..], k);
      var i :| 0 <= i < |s[1..]| && s[1..][i].elementnoPlus1 == k;
      assert t[1..][i].elementnoPlus1 == k;
    }
    InverseDone(t, u);
    forall k | 1 <= k < |u| ensures NumberedRight(u, names, k) {
      assert InverseAt(u, k);
      EntryNumbered(s, u, names, k);
    }
  }

  lemma EntryNumbered(s: seq<Entry>, u: seq<Entry>, names: seq<string>, k: nat)
    requires s != [] && DistinctNames(s[1..]) && Numbering(s[1..], names) && |u| == |s| && 1 <= k < |s|
    requires forall i :: 0 <= i < |s| ==> u[i] == s[i].(skip := u[i].skip, xindex := u[i].xindex)
    requires InverseAt(u, k) && |names| < |s|
    ensures NumberedRight(u, names, k)
  {
    var i := u[k].xindex;
    assert s[1..][i - 1] == s[i];
    assert EntryOk(s[1..][i - 1], names, |s| - 1);
    if s[i].name in names {
      var m :| 0 <= m < |names| && names[m] == s[i].name;
      NamedEntry(s[1..], names, i - 1, m);
    }
  }

  /** An entry with a given name is the entry of that element. */
  lemma NamedEntry(s: seq<Entry>, names: seq<string>, i: nat, m: nat)
    requires DistinctNames(s) && Numbering(s, names) && |names| <= |s|
    requires i < |s| && m < |names| && s[i].name == names[m]
    ensures s[i].elementnoPlus1 == m + 1
  {
    assert Numbered(s, m + 1);
    var j :| 0 <= j < |s| && s[j].elementnoPlus1 == m + 1;
    assert EntryOk(s[j], names, |s|);
  }

  // ----- How many entries

  /** The names and all directories on the way to them. */
  function Closure(names: seq<string>): set<string> {
    set i, k | 0 <= i < |names| && 0 <= k <= |names[i]| && Along(names[i][..k], names[i]) :: names[i][..k]
  }

  lemma ClosureIs(names: seq<string>, p: string)
    ensures p in Closure(names) <==> exists k :: 0 <= k < |names| && Along(p, names[k])
  {
    if k :| 0 <= k < |names| && Along(p, names[k]) {
      assert p == names[k][..|p|];
    }
  }

  lemma {:induction false} DistinctSize(t: seq<string>)
    requires Sorting.Distinct(t)
    ensures |set p | p in t| == |t|
  {
    if t != [] {
      var m := |t| - 1;
      DistinctSize(t[..m]);
      assert t == t[..m] + [t[m]];
      assert (set p | p in t) == (set p | p in t[..m]) + {t[m]};
    }
  }

  lemma ClosureSize(s: seq<Entry>, names: seq<string>)
    requires Content(s, names) && Holds(Names(s), names)
    ensures |s| == |Closure(names)|
  {
    hide Closure, Numbering, Along;
    var t := Names(s);
    DistinctSize(t);
    forall p ensures p in t <==> p in Closure(names) {
      ClosureIs(names, p);
    }
    assert (set p | p in t) == Closure(names);
  }

  /** There are at least as many entries as elements. */
  lemma ClosureHolds(names: seq<string>)
    requires Sorting.Distinct(names)
    ensures |names| <= |Closure(names)|
  {
    hide Closure;
    DistinctSize(names);
    var all := set p | p in names;
    forall p | p in all ensures p in Closure(names) {
      var k :| 0 <= k < |names| && names[k] == p;
      assert Along(p, names[k]);
      ClosureIs(names, p);
    }
    SubsetSize(all, Closure(names));
  }

  lemma SubsetSize(a: set<string>, b: set<string>)
    requires a <= b
    ensures |a| <= |b|
  {
    assert b == a + (b - a);
  }

  /** Fill the table, sort it, add the missing directories and sort again if there were any. */
  method Build(x0: array<Entry>, names: seq<string>, sizeofSizeT: nat) returns (x: array<Entry>, n: nat)
    requires x0.Length > |names|
    requires Sorting.Distinct(names) && forall k :: 0 <= k < |names| ==> ValidName(names[k])
    requires |Closure(names)| < Integers.Pow2(8 * sizeofSizeT)
    modifies x0
    ensures x == x0 || fresh(x)
    ensures |names| < n <= x.Length && n - 1 == |Closure(names)| && x[0] == Entry("", 0, 0, 0, 0)
    ensures Content(x[1..n], names) && StrictlySorted(Names(x[1..n])) && Holds(Names(x[1..n]), names)
  {
    hide Content, StrictlySorted, Holds, Added, AllMissing, ValidName, Integers.Pow2, Names, Closure;
    var nelem := |names| + 1;
    Fill(x0, names);
    ClosureHolds(names);
    SortEntries(x0, nelem, sizeofSizeT, names);
    ghost var s := x0[..];
    assert s[1..nelem] == x0[1..nelem];
    x, n := AddMissing(x0, nelem);
    assert x[..][..nelem] == x[..nelem] == s[..nelem];
    AddedTable(s, x[..], nelem, n, names);
    assert x[..][1..n] == x[1..n];
    assert x[0] == x[..nelem][0] == s[..nelem][0];
    if n != nelem {
      ghost var before := Names(x[1..n]);
      SortEntries(x, n, sizeofSizeT, names);
      HoldsSame(before, Names(x[1..n]), names);
    }
  }

  lemma HoldsSame(t: seq<string>, u: seq<string>, names: seq<string>)
    requires Holds(t, names) && forall p :: p in t <==> p in u
    ensures Holds(u, names)
  {
  }

  /** Compute subtree sizes and the inverse index. */
  method Annotate(x: array<Entry>, n: nat, ghost names: seq<string>)
    requires |names| < n <= x.Length && x[0] == Entry("", 0, 0, 0, 0)
    requires Content(x[1..n], names) && StrictlySorted(Names(x[1..n])) && Holds(Names(x[1..n]), names)
    requires forall k :: 0 <= k < |names| ==> ValidName(names[k])
    modifies x
    ensures Listing(x[..n], names)
    ensures n <= U16 ==> TableOk(x[..n], names)
  {
    hide Numbering, StrictlySorted, Holds, Names, NumbersOk, Indexed, Prepared, SkipIs, SkipStored, TableOk,
        Sorting.Distinct,
         DistinctNames, Listing;
    ghost var s := x[..n];
    assert s[1..] == x[1..n];
    PreparedTable(s, names);
    NoSkips(s, names);
    CountSkips(x, n);
    ghost var t := x[..n];
    if n <= U16 {
      NumbersOfContent(s, names);
      NumbersSame(s, t);
    }
    FillXindex(x, n);
    ListingDone(s, t, x[..n], names);
    if n <= U16 {
      FinishedTable(s, t, x[..n], names);
    }
  }

  /** The entry of a number, and what the table says of it. */
  lemma TableEntry(s: seq<Entry>, names: seq<string>, k: nat)
    requires TableOk(s, names) && k < |s|
    ensures s[k].xindex < |s| && Prepared(Names(s)) && SkipIs(Names(s), s[k].xindex, s[s[k].xindex].skip)
  {
    hide Prepared, SkipIs, Holds;
    if k > 0 {
      assert InverseAt(s, k);
    }
  }

  /** What holds of every table, however large: names, order, directories, and subtree sizes
      modulo 2^16. */
  ghost predicate Listing(s: seq<Entry>, names: seq<string>) {
    && s != [] && Prepared(Names(s))
    && Holds(Names(s[1..]), names)
    && (forall i :: 0 <= i < |s| ==> SkipStored(Names(s), i, s[i].skip))
  }

  lemma ListingDone(s: seq<Entry>, t: seq<Entry>, u: seq<Entry>, names: seq<string>)
    requires s != [] && Prepared(Names(s)) && Holds(Names(s[1..]), names)
    requires SameButSkips(s, t) && SameButXindex(t, u)
    requires forall i :: 0 <= i < |t| ==> SkipStored(Names(t), i, t[i].skip)
    ensures Listing(u, names)
  {
    hide Prepared, Holds, SkipStored;
    SkippedNames(s, t);
    assert Names(t) == Names(u);
    assert Names(s[1..]) == Names(s)[1..] && Names(u[1..]) == Names(u)[1..];
  }

  /** A right table fits: its root cannot hold a larger subtree size. */
  lemma TableFits(s: seq<Entry>, names: seq<string>)
    requires TableOk(s, names)
    ensures |s| <= U16
  {
    hide Prepared, SkipIs, Holds;
    assert SkipIs(Names(s), 0, s[0].skip);
    RootFits(Names(s), s[0].skip);
  }

  /** 65536 entries below the root leave it with an empty range: nothing can be found from
      there. */
  lemma RootLost(s: seq<Entry>, names: seq<string>)
    requires Listing(s, names) && |s| == U16 + 1
    ensures s[0].skip == 0 && !SkipIs(Names(s), 0, s[0].skip)
  {
    hide Prepared, SkipIs, Holds;
    var t := Names(s);
    assert SkipStored(t, 0, s[0].skip);
    var skip: nat :| SkipIs(t, 0, skip) && s[0].skip == skip % U16;
    RootFits(t, skip);
    if SkipIs(t, 0, s[0].skip) {
      RootFits(t, s[0].skip);
    }
  }

  /** A name of `n` letters. */
  function Letters(n: nat): (name: string)
    ensures |name| == n && forall i :: 0 <= i < n ==> name[i] == 'a'
  {
    seq(n, _ => 'a')
  }

  function LetterNames(): (names: seq<string>)
    ensures |names| == U16 && forall i :: 0 <= i < U16 ==> names[i] == Letters(i + 1)
  {
    seq(U16, (i: nat) => Letters(i + 1))
  }

  /** Names for which the code fails: 65536 elements without directories. */
  lemma TooManyNames()
    ensures var names := LetterNames();
            |names| == U16 && Sorting.Distinct(names) && (forall k :: 0 <= k < |names| ==> ValidName(names[k]))
                && |Closure(names)| >= U16
  {
    hide Closure;
    ClosureHolds(LetterNames());
  }

  lemma NoSkips(s: seq<Entry>, names: seq<string>)
    requires s != [] && Content(s[1..], names)
    ensures forall i :: 1 <= i < |s| ==> s[i].skip == 0
  {
    forall i | 1 <= i < |s| ensures s[i].skip == 0 {
      assert s[1..][i - 1] == s[i];
    }
  }

  lemma NumbersSame(s: seq<Entry>, t: seq<Entry>)
    requires SameButSkips(s, t) && NumbersOk(s)
    ensures NumbersOk(t)
  {
    forall i | 0 <= i < |s| ensures t[i].elementnoPlus1 == s[i].elementnoPlus1 {}
  }

  lemma EmptyTable()
    ensures TableOk([Entry("", 0, 0, 0, 0)], []) && Listing([Entry("", 0, 0, 0, 0)], [])
    ensures |Closure([])| == 0 < U16
  {
    assert Closure([]) == {};
    var t := Names([Entry("", 0, 0, 0, 0)]);
    assert SkipIs(t, 0, 0);
  }

  // ----- Searching a prepared table

  /** Relative names within one directory are in order. */
  ghost predicate RelativeSorted(s: seq<Entry>, first: int, last: int, offset: nat) {
    && (forall i :: first <= i <= last && 0 <= i < |s| ==> offset <= |s[i].name|)
    && (forall i, j :: first <= i < j <= last && 0 <= i && j < |s| ==> Less(s[i].name[offset..], s[j].name[offset..]))
  }

  lemma SubtreeSorted(t: seq<string>, s: seq<Entry>, i: nat, skip: nat)
    requires Prepared(t) && t == Names(s) && SkipIs(t, i, skip)
    ensures RelativeSorted(s, i + 1, i + skip, Offset(t[i]))
  {
    forall a | i + 1 <= a <= i + skip && 0 <= a < |s| ensures Under(t[i], s[a].name) && Offset(t[i]) <= |s[a].name| {
      assert Under(t[i], t[a]);
      RelativeName(t[i], t[a]);
    }
    forall a, b | i + 1 <= a < b <= i + skip && 0 <= a && b < |s|
        ensures Less(s[a].name[Offset(t[i])..], s[b].name[Offset(t[i])..]) {
      assert Less(t[a], t[b]);
      CompareRelative(t[i], t[a], t[b]);
    }
  }

  /** In a directory's range, having the relative name is being the joined name; outside it
      no entry is. */
  lemma SearchMeaning(t: seq<string>, i: nat, skip: nat, j: nat, n: string)
    requires Prepared(t) && SkipIs(t, i, skip) && 1 <= j < |t|
    ensures t[j] == Joined(t[i], n) <==> i < j <= i + skip && Offset(t[i]) <= |t[j]| && t[j][Offset(t[i])..] == n
  {
    JoinedUnder(t[i], n);
    if i < j <= i + skip {
      RelativeName(t[i], t[j]);
    }
    if t[j] == Joined(t[i], n) {
      assert i < j by {
        if t[i] != "" {
          AboveValid(t[i], t[j]);
          OrderedPositions(t, i, j);
        } else {
          RootOnly(t, i);
        }
      }
    }
  }

  /** The skip-walk meets no entry inside an already finished subtree. */
  lemma WalkMeetsChild(t: seq<string>, s: seq<Entry>, i: nat, xi: nat)
    requires Prepared(t) && t == Names(s) && forall k :: 0 <= k < |s| ==> SkipIs(t, k, s[k].skip)
    requires i < |s| && i < xi <= i + s[i].skip && xi < |s|
    requires forall j :: i < j < xi ==> j + s[j].skip < xi
    ensures DirectChild(t[i], t[xi])
  {
    assert SkipIs(t, i, s[i].skip);
    if !DirectChild(t[i], t[xi]) {
      var m := NestedCovered(t, s, i, xi);
    }
  }

  /** An entry that is not a direct child lies in the subtree of an earlier entry of the directory. */
  lemma NestedCovered(t: seq<string>, s: seq<Entry>, i: nat, xi: nat) returns (m: nat)
    requires Prepared(t) && t == Names(s) && forall k :: 0 <= k < |s| ==> SkipIs(t, k, s[k].skip)
    requires i < xi < |s| && Under(t[i], t[xi]) && !DirectChild(t[i], t[xi])
    ensures i < m < xi && xi <= m + s[m].skip
  {
    if t[i] == "" { RootOnly(t, i); }
    var q := ChildOrNested(t[i], t[xi]);
    assert q in t;
    m :| 0 <= m < |t| && t[m] == q;
    AboveValid(q, t[xi]);
    OrderedPositions(t, m, xi);
    if t[i] != "" {
      PrefixLess(t[i], q);
      OrderedPositions(t, i, m);
    }
    assert SkipIs(t, m, s[m].skip);
  }

  lemma RootOnly(t: seq<string>, i: nat)
    requires Prepared(t) && i < |t| && t[i] == ""
    ensures i == 0
  {
  }

  lemma WalkSkipsNone(t: seq<string>, s: seq<Entry>, i: nat, xi: nat, j: nat)
    requires Prepared(t) && t == Names(s) && forall k :: 0 <= k < |s| ==> SkipIs(t, k, s[k].skip)
    requires i < |s| && i < xi <= i + s[i].skip && xi < |s| && xi < j <= xi + s[xi].skip
    ensures j < |s| && !DirectChild(t[i], t[j]) && j + s[j].skip <= xi + s[xi].skip
  {
    assert SkipIs(t, i, s[i].skip) && SkipIs(t, xi, s[xi].skip);
    assert Under(t[xi], t[j]) && ValidName(t[xi]);
    GrandchildIsNotChild(t[i], t[xi], t[j]);
    assert SkipIs(t, j, s[j].skip);
    var e := j + s[j].skip;
    if e > j {
      assert Under(t[j], t[e]);
      AboveTrans(t[xi], t[j], t[e]);
    }
  }

  /** The skip-walk at `xi`: finished subtrees lie behind, and their direct children are listed. */
  ghost predicate Visited(t: seq<string>, s: seq<Entry>, i: nat, xi: nat, end: nat, visited: seq<nat>) {
    && i < xi <= end <= |s| == |t|
    && (forall a :: 0 <= a < |visited| ==> visited[a] < xi)
    && (forall a, b :: 0 <= a < b < |visited| ==> visited[a] < visited[b])
    && (forall j :: i < j < xi ==> j + s[j].skip < xi)
    && (forall j :: j in visited <==> i < j < xi && DirectChild(t[i], t[j]))
  }

  lemma VisitNext(t: seq<string>, s: seq<Entry>, i: nat, xi: nat, end: nat, visited: seq<nat>)
    requires Prepared(t) && t == Names(s) && forall k :: 0 <= k < |s| ==> SkipIs(t, k, s[k].skip)
    requires i < |s| && end == i + s[i].skip + 1 && xi < end && Visited(t, s, i, xi, end, visited)
    ensures Visited(t, s, i, xi + s[xi].skip + 1, end, visited + [xi])
  {
    hide Prepared, SkipIs, DirectChild, Names;
    WalkMeetsChild(t, s, i, xi);
    var next := xi + s[xi].skip + 1;
    SubtreeInside(t, s, i, xi);
    forall j | xi < j < next ensures !DirectChild(t[i], t[j]) && j + s[j].skip < next {
      WalkSkipsNone(t, s, i, xi, j);
    }
  }

  class ClickIno {
    var x: array<Entry>
    var nentries: nat

    constructor ()
      ensures nentries == 0 && fresh(x)
    {
      x := new Entry[0];
      nentries := 0;
    }

    /** `true_prepare` for a router with the given element names, on a machine whose `size_t` has
        `sizeofSizeT` bytes and can count the entries.  The names are always listed right; the
        numbers are exactly if names and directories together are at most 65535. */
    method TruePrepare(names: seq<string>, sizeofSizeT: nat)
      requires Sorting.Distinct(names) && forall k :: 0 <= k < |names| ==> ValidName(names[k])
      requires |Closure(names)| < Integers.Pow2(8 * sizeofSizeT)
      modifies this, x
      ensures x == old(x) || fresh(x)
      ensures 1 <= nentries <= x.Length && nentries == |Closure(names)| + 1
      ensures Listing(x[..nentries], names)
      ensures TableOk(x[..nentries], names) <==> |Closure(names)| < U16
    {
      hide *;
      var nelem := |names| + 1;
      if nelem < nentries / 2 && nentries > 256 {
        x := new Entry[0];
      }
      x := Grow(x, nelem);
      if nelem == 1 {
        x[0] := Entry("", 0, 0, 0, 0);
        nentries := 1;
        assert names == [] && x[..1] == [Entry("", 0, 0, 0, 0)];
        EmptyTable();
        return;
      }
      var y, n := Build(x, names, sizeofSizeT);
      Annotate(y, n, names);
      x, nentries := y, n;
      if TableOk(x[..nentries], names) {
        TableFits(x[..nentries], names);
      }
    }

    function Xindex(elementno: int): nat
      requires -1 <= elementno < nentries - 1 && nentries <= x.Length
      reads this, x
    {
      x[elementno + 1].xindex
    }

    method NameSearch(n: string, firstXi: nat, lastXi: int, nameOffset: nat) returns (found: int)
      requires lastXi < nentries <= x.Length && RelativeSorted(x[..nentries], firstXi, lastXi, nameOffset)
      ensures found >= 0 ==>
          firstXi <= found <= lastXi && nameOffset <= |x[found].name| && x[found].name[nameOffset..] == n
      ensures found < 0 ==> forall i :: firstXi <= i <= lastXi ==>
          nameOffset <= |x[i].name| && x[i].name[nameOffset..] != n
    {
      var first, last := firstXi, lastXi;
      while first <= last
        invariant firstXi <= first && last <= lastXi
        invariant forall i :: firstXi <= i <= lastXi && !(first <= i <= last) ==>
            nameOffset <= |x[i].name| && x[i].name[nameOffset..] != n
        decreases last - first + 1
      {
        var mid := first + (last - first) / 2;
        assert x[..nentries][mid] == x[mid];
        var rel := x[mid].name[nameOffset..];
        var cmp := Compare(n, rel);
        CompareEqual(n, rel);
        if cmp == 0 {
          return mid;
        }
        forall i | firstXi <= i <= lastXi && (if cmp < 0 then mid <= i else i <= mid)
          ensures nameOffset <= |x[i].name| && x[i].name[nameOffset..] != n
        {
          assert x[..nentries][i] == x[i];
          CompareFlip(n, rel);
        }
        if cmp < 0 {
          last := mid - 1;
        } else {
          first := mid + 1;
        }
      }
      return -1;
    }

    /** Look up a name relative to the directory of an element. */
    method ElementNameSearch(n: string, elementno: int, ghost names: seq<string>) returns (found: int)
      requires 1 <= nentries <= x.Length && TableOk(x[..nentries], names)
      requires -1 <= elementno < nentries - 1
      ensures Xindex(elementno) < nentries
      ensures found >= 0 ==> 1 <= found < nentries && x[found].name == Joined(x[Xindex(elementno)].name, n)
      ensures found < 0 ==> forall i :: 1 <= i < nentries ==> x[i].name != Joined(x[Xindex(elementno)].name, n)
    {
      hide Prepared, SkipIs, RelativeSorted, Joined, TableOk, Names;
      ghost var s := x[..nentries];
      ghost var t := Names(s);
      var xi := x[elementno + 1].xindex;
      TableEntry(s, names, elementno + 1);
      assert x[xi] == s[xi] && t[xi] == x[xi].name;
      var firstpos := if x[xi].name != "" then |x[xi].name| + 1 else 0;
      SubtreeSorted(t, s, xi, s[xi].skip);
      SkipFits(t, xi, s[xi].skip);
      found := NameSearch(n, xi + 1, xi + x[xi].skip, firstpos);
      forall i | 1 <= i < nentries ensures x[i].name == Joined(x[xi].name, n)
          <==> xi < i <= xi + s[xi].skip && firstpos <= |x[i].name| && x[i].name[firstpos..] == n
      {
        assert t[i] == x[i].name;
        SearchMeaning(t, xi, s[xi].skip, i, n);
      }
    }

    /** The names part of a directory's link count: the skip-walk over its direct children. */
    method CountNames(elementno: int, ghost names: seq<string>) returns (count: nat, ghost visited: seq<nat>)
      requires 1 <= nentries <= x.Length && TableOk(x[..nentries], names)
      requires -1 <= elementno < nentries - 1
      ensures count == |visited| && forall a, b :: 0 <= a < b < |visited| ==> visited[a] < visited[b]
      ensures Xindex(elementno) < nentries
      ensures forall j :: j in visited <==> 1 <= j < nentries && DirectChild(x[Xindex(elementno)].name, x[j].name)
    {
      hide Prepared, SkipIs, DirectChild;
      ghost var s := x[..nentries];
      ghost var t := Names(s);
      var dirXi := x[elementno + 1].xindex;
      assert dirXi < nentries by { if elementno >= 0 { assert InverseAt(s, elementno + 1); } }
      forall k | 0 <= k < nentries ensures t[k] == x[k].name && s[k] == x[k] && SkipIs(t, k, s[k].skip) {}
      SkipFits(t, dirXi, s[dirXi].skip);
      count, visited := 0, [];
      var xi := dirXi + 1;
      var nextXi := dirXi + x[dirXi].skip + 1;
      while xi < nextXi
        invariant count == |visited|
        invariant Visited(t, s, dirXi, xi, nextXi, visited)
      {
        hide Names, Visited;
        VisitNext(t, s, dirXi, xi, nextXi, visited);
        count, visited := count + 1, visited + [xi];
        xi := xi + x[xi].skip + 1;
      }
      forall j | 1 <= j < nentries && DirectChild(t[dirXi], t[j]) ensures dirXi < j < nextXi {
        ChildInRange(t, s, dirXi, j);
      }
    }

    /** The parent directory of an entry: the search for it never fails. */
    method Parent(elementno: int, ghost names: seq<string>) returns (found: int)
      requires 1 <= nentries <= x.Length && TableOk(x[..nentries], names)
      requires 0 <= elementno < nentries - 1
      ensures Xindex(elementno) < nentries
      ensures var name := x[Xindex(elementno)].name; var slash := FindRight(name);
              0 <= found < nentries && x[found].name == (if slash < 0 then "" else name[..slash])
                  && Under(x[found].name, name)
    {
      hide Prepared, SkipIs, RelativeSorted;
      ghost var s := x[..nentries];
      ghost var t := Names(s);
      assert InverseAt(s, elementno + 1);
      var xi := x[elementno + 1].xindex;
      assert x[xi] == s[xi] && t[xi] == x[xi].name;
      var slash := FindRight(x[xi].name);
      if slash < 0 {
        assert t[0] == x[0].name && t[0] == "" by { RootName(t); }
        return 0;
      }
      assert SkipIs(t, 0, s[0].skip);
      SubtreeSorted(t, s, 0, s[0].skip);
      RootFits(t, s[0].skip);
      found := NameSearch(x[xi].name[..slash], 1, nentries - 1, 0);
      var m := ParentListed(t, xi);
      assert t[m] == x[m].name;
      assert x[m].name[0..] == x[m].name;
    }
  }

  lemma SkipFits(t: seq<string>, i: nat, skip: nat)
    requires SkipIs(t, i, skip)
    ensures i + skip < |t|
  {
  }

  lemma RootName(t: seq<string>)
    requires Prepared(t)
    ensures t[0] == ""
  {
  }

  lemma RootFits(t: seq<string>, skip: nat)
    requires Prepared(t) && SkipIs(t, 0, skip)
    ensures skip == |t| - 1 && Offset(t[0]) == 0
  {
    if skip < |t| - 1 { assert Under(t[0], t[skip + 1]); }
  }

  lemma ParentListed(t: seq<string>, i: nat) returns (m: nat)
    requires Prepared(t) && 1 <= i < |t| && FindRight(t[i]) >= 0
    ensures 1 <= m < |t| && t[m] == t[i][..FindRight(t[i])] && Under(t[m], t[i])
  {
    NearestIsAbove(t[i]);
    assert t[i][..FindRight(t[i])] in t;
    m :| 0 <= m < |t| && t[m] == t[i][..FindRight(t[i])];
  }

  lemma SubtreeInside(t: seq<string>, s: seq<Entry>, i: nat, xi: nat)
    requires Prepared(t) && t == Names(s) && forall k :: 0 <= k < |s| ==> SkipIs(t, k, s[k].skip)
    requires i < |s| && i < xi <= i + s[i].skip && xi < |s|
    ensures xi + s[xi].skip <= i + s[i].skip
  {
    assert SkipIs(t, i, s[i].skip);
    assert SkipIs(t, xi, s[xi].skip);
    var e := xi + s[xi].skip;
    if e > xi {
      assert Under(t[xi], t[e]) && Under(t[i], t[xi]) && ValidName(t[xi]);
      if t[i] != "" { AboveTrans(t[i], t[xi], t[e]); }
    }
  }

  lemma ChildInRange(t: seq<string>, s: seq<Entry>, i: nat, j: nat)
    requires Prepared(t) && t == Names(s) && i < |s| && SkipIs(t, i, s[i].skip)
    requires 1 <= j < |s| && DirectChild(t[i], t[j])
    ensures i < j <= i + s[i].skip
  {
    if t[i] != "" {
      AboveValid(t[i], t[j]);
      OrderedPositions(t, i, j);
    } else {
      RootOnly(t, i);
    }
  }
}
