/** `DynamicNameDB`: a table of names and fixed-size values that sorts itself once it has been
    searched often enough.  `sorted` counts searches, and 100 marks a sorted table.  The value
    of entry `i` occupies bytes `[size * i, size * (i + 1))` of `values`. */
module NameDB {
  import Integers
  import Sorting
  import Strings

  datatype Answer = Missing | Found(value: string)

  // ----- Values in one byte string

  lemma Scale(size: nat, i: nat, n: nat)
    requires i <= n
    ensures size * i <= size * n
    ensures i < n ==> size * i + size == size * (i + 1) <= size * n
  {
    if i < n {
      Scale(size, i, n - 1);
    }
  }

  ghost predicate Sized(values: string, size: nat, n: nat) {
    |values| == size * n
  }

  function Chunk(values: string, size: nat, i: nat): string {
    if size * i + size <= |values| then values[size * i..size * i + size] else ""
  }

  lemma ChunkLength(values: string, size: nat, i: nat, n: nat)
    requires Sized(values, size, n) && i < n
    ensures |Chunk(values, size, i)| == size
  {
    Scale(size, i, n);
  }

  lemma ChunkAppend(values: string, size: nat, n: nat, value: string)
    requires Sized(values, size, n) && |value| == size
    ensures Sized(values + value, size, n + 1)
    ensures forall i :: 0 <= i <= n ==> Chunk(values + value, size, i) == if i < n
        then Chunk(values, size, i) else value
  {
    forall i: nat | i <= n ensures Chunk(values + value, size, i) == if i < n then Chunk(values, size, i) else value {
      Scale(size, i, n);
    }
  }

  function Overwrite(values: string, size: nat, i: nat, value: string): string {
    if size * i + size <= |values| then values[..size * i] + value + values[size * i + size..] else values
  }

  /** Replacing `size` bytes at `at`, seen `size` bytes at a time. */
  lemma Splice(values: string, at: nat, from: nat, size: nat, value: string)
    requires |value| == size && at + size <= |values| && from + size <= |values|
    requires from == at || from + size <= at || at + size <= from
    ensures (values[..at] + value + values[at + size..])[from..from + size] ==
            if from == at then value else values[from..from + size]
  {
  }

  lemma ChunkOverwrite(values: string, size: nat, n: nat, i: nat, value: string)
    requires Sized(values, size, n) && |value| == size && i < n
    ensures Sized(Overwrite(values, size, i, value), size, n)
    ensures forall j :: 0 <= j < n ==> Chunk(Overwrite(values, size, i, value), size, j) == if j == i
        then value else Chunk(values, size, j)
  {
    Scale(size, i, n);
    forall j: nat | j < n ensures Chunk(Overwrite(values, size, i, value), size, j) == if j == i
        then value else Chunk(values, size, j) {
      Scale(size, j, n);
      if j < i {
        Scale(size, j, i);
      } else if j > i {
        Scale(size, i, j);
      }
      Splice(values, size * i, size * j, size, value);
    }
  }

  // ----- The table as a map

  ghost predicate EntryOf(names: seq<string>, values: string, size: nat, contents: map<string, string>, i: nat)
    requires i < |names|
  {
    names[i] in contents && contents[names[i]] == Chunk(values, size, i)
  }

  /** The arrays hold exactly the bindings of `contents`, each once. */
  ghost predicate Represents(names: seq<string>, values: string, size: nat, contents: map<string, string>) {
    && Sorting.Distinct(names) && "" !in names
    && Sized(values, size, |names|)
    && (forall i :: 0 <= i < |names| ==> EntryOf(names, values, size, contents, i))
    && (forall name :: name in contents ==> name in names)
  }

  // ----- Sorting by a permutation

  function At(names: seq<string>, i: int): string {
    if 0 <= i < |names| then names[i] else ""
  }

  function ByName(names: seq<string>): (int, int) -> int {
    (a, b) => Strings.Compare(At(names, a), At(names, b))
  }

  lemma ByNameIsOrder(names: seq<string>)
    ensures Sorting.TotalPreorder(ByName(names))
  {
    forall x, y, z ensures Sorting.Orderly(ByName(names), x, y, z) {
      Strings.CompareIsOrder();
      assert Sorting.Orderly(Strings.Compare, At(names, x), At(names, y), At(names, z));
    }
  }

  /** `perm` lists each index below `n` once. */
  ghost predicate Permutation(perm: seq<int>, n: nat) {
    && |perm| == n && Sorting.Distinct(perm)
    && (forall i :: 0 <= i < n ==> 0 <= perm[i] < n)
    && (forall k :: 0 <= k < n ==> k in perm)
  }

  function Iota(n: nat): seq<int> {
    seq(n, i => i)
  }

  lemma IotaIsPermutation(n: nat)
    ensures Permutation(Iota(n), n)
  {
    forall k | 0 <= k < n ensures k in Iota(n) {
      assert Iota(n)[k] == k;
    }
  }

  lemma PermutationKept(s: seq<int>, t: seq<int>, n: nat)
    requires Permutation(s, n) && Sorting.Rearranged(s, t, 0, n)
    ensures Permutation(t, n)
  {
    assert s[0..n] == s && t[0..n] == t;
    Sorting.DistinctKept(s, t, (i: int) => i);
    forall i | 0 <= i < n ensures 0 <= t[i] < n {
      assert t[i] in multiset(s);
    }
    forall k | 0 <= k < n ensures k in t {
      assert k in s;
      assert k in multiset(s);
    }
  }

  /** The names in the order of a sorted permutation are strictly increasing. */
  lemma PermutedSorted(names: seq<string>, perm: seq<int>, sorted: seq<string>)
    requires Sorting.Distinct(names) && Permutation(perm, |names|)
    requires Sorting.SortedBy(perm, ByName(names))
    requires |sorted| == |names| && forall i :: 0 <= i < |names| ==> sorted[i] == At(names, perm[i])
    ensures Strings.StrictlySorted(sorted)
  {
    forall i, j | 0 <= i < j < |sorted| ensures Strings.Less(sorted[i], sorted[j]) {
      assert ByName(names)(perm[i], perm[j]) <= 0;
      Strings.CompareEqual(sorted[i], sorted[j]);
      assert perm[i] != perm[j];
    }
  }

  ghost predicate Copied(names: seq<string>, values: string, perm: seq<int>, names': seq<string>, values': string,
      size: nat, n: nat)
    requires n <= |perm|
  {
    && |names'| == n && Sized(values', size, n)
    && (forall i :: 0 <= i < n ==> names'[i] == At(names, perm[i]))
    && (forall i :: 0 <= i < n && perm[i] >= 0 ==> Chunk(values', size, i) == Chunk(values, size, perm[i]))
  }

  lemma CopiedStep(names: seq<string>, values: string, perm: seq<int>, names': seq<string>, values': string, size: nat,
      n: nat)
    requires n < |perm| && Copied(names, values, perm, names', values', size, n)
    requires Sized(values, size, |names|) && 0 <= perm[n] < |names|
    ensures Copied(names, values, perm, names' + [names[perm[n]]], values' + Chunk(values, size, perm[n]), size, n + 1)
  {
    hide Sized, Chunk;
    ChunkLength(values, size, perm[n], |names|);
    ChunkAppend(values', size, n, Chunk(values, size, perm[n]));
  }

  lemma CopyRepresents(names: seq<string>, values: string, perm: seq<int>, names': seq<string>, values': string,
      size: nat,
                       contents: map<string, string>)
    requires Represents(names, values, size, contents) && Permutation(perm, |names|)
    requires Copied(names, values, perm, names', values', size, |names|)
    ensures Represents(names', values', size, contents)
  {
    hide Sorting.Distinct, Permutation;
    forall i | 0 <= i < |names'| ensures EntryOf(names', values', size, contents, i) {
      CopiedEntry(names, values, perm, names', values', size, contents, i);
    }
    forall name | name in contents ensures name in names' {
      CopiedName(names, values, perm, names', values', size, name);
    }
    CopiedDistinct(names, values, perm, names', values', size);
  }

  lemma CopiedEntry(names: seq<string>, values: string, perm: seq<int>, names': seq<string>, values': string, size: nat,
                    contents: map<string, string>, i: nat)
    requires Represents(names, values, size, contents) && Permutation(perm, |names|)
    requires Copied(names, values, perm, names', values', size, |names|) && i < |names|
    ensures EntryOf(names', values', size, contents, i)
  {
    hide Sorting.Distinct;
    assert 0 <= perm[i] < |names|;
    assert EntryOf(names, values, size, contents, perm[i]);
    assert names'[i] == names[perm[i]];
  }

  lemma CopiedName(names: seq<string>, values: string, perm: seq<int>, names': seq<string>, values': string, size: nat,
                   name: string)
    requires name in names && Permutation(perm, |names|)
    requires Copied(names, values, perm, names', values', size, |names|)
    ensures name in names'
  {
    hide Sorting.Distinct;
    var k :| 0 <= k < |names| && names[k] == name;
    assert k in perm;
    var i :| 0 <= i < |perm| && perm[i] == k;
    assert names'[i] == At(names, perm[i]) == name;
  }

  lemma CopiedDistinct(names: seq<string>, values: string, perm: seq<int>, names': seq<string>, values': string,
      size: nat)
    requires Sorting.Distinct(names) && "" !in names && Permutation(perm, |names|)
    requires Copied(names, values, perm, names', values', size, |names|)
    ensures Sorting.Distinct(names') && "" !in names'
  {
    forall i | 0 <= i < |names'| ensures 0 <= perm[i] < |names| && names'[i] == names[perm[i]] != "" {
      assert names[perm[i]] in names;
    }
    forall i, j | 0 <= i < j < |names'| ensures names'[i] != names'[j] {
      assert perm[i] != perm[j];
    }
  }

  lemma CopySorted(names: seq<string>, values: string, perm: seq<int>, names': seq<string>, values': string, size: nat,
                   contents: map<string, string>)
    requires Represents(names, values, size, contents) && Permutation(perm, |names|)
    requires Copied(names, values, perm, names', values', size, |names|)
    requires Sorting.SortedBy(perm, ByName(names))
    ensures Strings.StrictlySorted(names') && |names'| == |names|
  {
    PermutedSorted(names, perm, names');
  }

  lemma CopiedNothing(names: seq<string>, values: string, perm: seq<int>, size: nat)
    ensures Copied(names, values, perm, [], "", size, 0)
  {
  }

  lemma PermutationAt(perm: seq<int>, n: nat, i: nat)
    requires Permutation(perm, n) && i < n
    ensures |perm| == n && 0 <= perm[i] < n
  {
  }

  lemma RepresentsSized(names: seq<string>, values: string, size: nat, contents: map<string, string>)
    requires Represents(names, values, size, contents)
    ensures Sized(values, size, |names|)
  {
  }

  lemma EmptySorted(names: seq<string>)
    ensures |names| <= 1 ==> Strings.StrictlySorted(names)
  {
  }

  // ----- Searching

  /** Nothing outside `[l, r)` is `name`. */
  ghost predicate Narrowed(names: seq<string>, name: string, l: nat, r: nat) {
    && l <= r <= |names|
    && (forall i :: 0 <= i < l ==> names[i] != name)
    && (forall i :: r <= i < |names| ==> names[i] != name)
  }

  lemma Narrow(names: seq<string>, name: string, l: nat, r: nat, m: nat)
    requires Strings.StrictlySorted(names) && Narrowed(names, name, l, r) && l <= m < r
    ensures Strings.Compare(name, names[m]) < 0 ==> Narrowed(names, name, l, m)
    ensures Strings.Compare(name, names[m]) > 0 ==> Narrowed(names, name, m + 1, r)
  {
    Strings.CompareFlip(name, names[m]);
    Strings.CompareEqual(name, names[m]);
    if Strings.Compare(name, names[m]) < 0 {
      forall i | m < i < r ensures names[i] != name {
        Strings.CompareFlip(names[m], names[i]);
      }
    } else if Strings.Compare(name, names[m]) > 0 {
      forall i | l <= i < m ensures names[i] != name {
        assert Strings.Less(names[i], names[m]);
      }
    }
  }

  method FindSorted(names: seq<string>, name: string) returns (at: int)
    requires Strings.StrictlySorted(names)
    ensures at == -1 <==> name !in names
    ensures -1 <= at < |names| && (at >= 0 ==> names[at] == name)
  {
    hide Strings.StrictlySorted;
    var l, r := 0, |names|;
    while l < r
      invariant l <= r <= |names| && Narrowed(names, name, l, r)
    {
      var m := l + (r - l) / 2;
      var cmp := Strings.Compare(name, names[m]);
      Narrow(names, name, l, r, m);
      Strings.CompareEqual(name, names[m]);
      if cmp == 0 {
        return m;
      } else if cmp < 0 {
        r := m;
      } else {
        l := m + 1;
      }
    }
    return -1;
  }

  method FindAnywhere(names: seq<string>, name: string) returns (at: int)
    ensures at == -1 <==> name !in names
    ensures -1 <= at < |names| && (at >= 0 ==> names[at] == name)
  {
    for i := 0 to |names|
      invariant Narrowed(names, name, i, |names|)
    {
      if name == names[i] {
        return i;
      }
    }
    return -1;
  }

  /** The bytes of a new entry; the source leaves them unset until `Define` writes them. */
  function Blank(size: nat): string {
    seq(size, _ => '\0')
  }

  lemma AppendRepresents(names: seq<string>, values: string, size: nat, contents: map<string, string>, name: string,
      value: string)
    requires Represents(names, values, size, contents)
    requires name != "" && name !in names && |value| == size
    ensures Represents(names + [name], values + value, size, contents[name := value])
  {
    ChunkAppend(values, size, |names|, value);
    var names', values', now := names + [name], values + value, contents[name := value];
    forall i | 0 <= i < |names'| ensures EntryOf(names', values', size, now, i) {
      if i < |names| {
        assert EntryOf(names, values, size, contents, i);
        assert names[i] in names;
      }
    }
    assert names'[|names|] == name;
    forall k | k in now ensures k in names' {
      assert k == name || k in names;
    }
  }

  lemma OverwriteRepresents(names: seq<string>, values: string, size: nat, contents: map<string, string>, i: nat,
      value: string)
    requires Represents(names, values, size, contents)
    requires i < |names| && |value| == size
    ensures Represents(names, Overwrite(values, size, i, value), size, contents[names[i] := value])
  {
    ChunkOverwrite(values, size, |names|, i, value);
    var values', now := Overwrite(values, size, i, value), contents[names[i] := value];
    forall j | 0 <= j < |names| ensures EntryOf(names, values', size, now, j) {
      assert EntryOf(names, values, size, contents, j);
    }
  }

  lemma Lookup(names: seq<string>, values: string, size: nat, contents: map<string, string>, i: nat)
    requires Represents(names, values, size, contents) && i < |names|
    ensures names[i] in contents && contents[names[i]] == Chunk(values, size, i)
    ensures |Chunk(values, size, i)| == size
  {
    assert EntryOf(names, values, size, contents, i);
    ChunkLength(values, size, i, |names|);
  }

  lemma NamesAre(names: seq<string>, values: string, size: nat, contents: map<string, string>, name: string)
    requires Represents(names, values, size, contents)
    ensures name in names <==> name in contents
    ensures name in names ==> name != ""
  {
    if name in names {
      var i :| 0 <= i < |names| && names[i] == name;
      assert EntryOf(names, values, size, contents, i);
    }
  }

  class DynamicNameDB {
    const size: nat
    const sizeofSizeT: nat
    var names: seq<string>
    var values: string
    var sorted: int
    ghost var contents: map<string, string>

    ghost predicate Valid()
      reads this
    {
      && Represents(names, values, size, contents)
      && 0 <= sorted <= 100
      && (sorted == 100 ==> Strings.StrictlySorted(names))
      && (20 < sorted < 100 ==> names == [] || sorted == 21)
    }

    constructor (size: nat, sizeofSizeT: nat)
      requires size > 0
      ensures Valid() && contents == map[] && names == []
      ensures this.size == size && this.sizeofSizeT == sizeofSizeT
    {
      this.size := size;
      this.sizeofSizeT := sizeofSizeT;
      names, values, sorted, contents := [], "", 0, map[];
    }

    method Sort()
      requires Valid() && |names| < Integers.Pow2(8 * sizeofSizeT)
      modifies this`names, this`values, this`sorted
      ensures Valid()
      ensures Strings.StrictlySorted(names) && |names| == |old(names)|
      ensures sorted == if old(names) == [] then old(sorted) else 100
    {
      hide Represents, Strings.StrictlySorted, Copied, Permutation, Sorting.Distinct, Sorting.Rearranged,
          Sorting.SortedBy, ByName, Sorting.TotalPreorder;
      if sorted == 100 || |names| == 0 {
        EmptySorted(names);
        return;
      }
      var n := |names|;
      var permutation := new int[n](i => i);
      assert permutation[..] == Iota(n);
      IotaIsPermutation(n);
      ByNameIsOrder(names);
      Sorting.QSort(permutation, 0, n, ByName(names), sizeofSizeT);
      ghost var perm := permutation[..];
      assert permutation[0..n] == perm;
      PermutationKept(Iota(n), perm, n);
      var newNames, newValues := [], "";
      CopiedNothing(names, values, perm, size);
      for i := 0 to n
        invariant permutation[..] == perm && names == old(names) && values == old(values)
        invariant Copied(names, values, perm, newNames, newValues, size, i)
      {
        PermutationAt(perm, n, i);
        RepresentsSized(names, values, size, contents);
        CopiedStep(names, values, perm, newNames, newValues, size, i);
        newNames := newNames + [names[permutation[i]]];
        newValues := newValues + Chunk(values, size, permutation[i]);
      }
      CopyRepresents(names, values, perm, newNames, newValues, size, contents);
      CopySorted(names, values, perm, newNames, newValues, size, contents);
      names, values := newNames, newValues;
      sorted := 100;
    }

    /** Position of `name`, or -1: by halving when sorted, by scanning otherwise. */
    method Find(name: string, create: bool) returns (at: int)
      requires Valid() && |names| < Integers.Pow2(8 * sizeofSizeT)
      modifies this
      ensures Valid()
      ensures name in old(contents) || !create || name == "" ==> contents == old(contents)
      ensures name !in old(contents) && create && name != "" ==>
        sorted == 0 && contents == old(contents)[name := Blank(size)]
      ensures -1 <= at < |names| && (at >= 0 ==> names[at] == name)
      ensures at < 0 <==> name !in old(contents) && (!create || name == "")
    {
      hide Represents, Strings.StrictlySorted, Sorting.Distinct;
      if sorted > 20 {
        Sort();
      }
      NamesAre(names, values, size, contents, name);
      if sorted == 100 {
        at := FindSorted(names, name);
      } else {
        EmptySorted(names);
        sorted := sorted + 1;
        at := FindAnywhere(names, name);
      }
      if at >= 0 {
        return;
      }
      if create && name != "" {
        sorted := 0;
        AppendRepresents(names, values, size, contents, name, Blank(size));
        names := names + [name];
        values := values + Blank(size);
        contents := contents[name := Blank(size)];
        return |names| - 1;
      }
      return -1;
    }

    method Query(name: string) returns (answer: Answer)
      requires Valid() && |names| < Integers.Pow2(8 * sizeofSizeT)
      modifies this
      ensures Valid() && contents == old(contents)
      ensures answer == if name in contents then Found(contents[name]) else Missing
      ensures answer.Found? ==> |answer.value| == size
    {
      hide Represents, Strings.StrictlySorted, Sorting.Distinct;
      var x := Find(name, false);
      if x >= 0 {
        Lookup(names, values, size, contents, x);
        return Found(Chunk(values, size, x));
      }
      return Missing;
    }

    method Define(name: string, value: string) returns (ok: bool)
      requires Valid() && |names| < Integers.Pow2(8 * sizeofSizeT)
      requires |value| == size
      modifies this
      ensures Valid()
      ensures ok <==> name != ""
      ensures contents == if ok then old(contents)[name := value] else old(contents)
    {
      hide Represents, Strings.StrictlySorted, Sorting.Distinct;
      NamesAre(names, values, size, contents, "");
      var x := Find(name, true);
      if x >= 0 {
        OverwriteRepresents(names, values, size, contents, x, value);
        values := Overwrite(values, size, x, value);
        contents := contents[name := value];
        return true;
      }
      return false;
    }

    /** The first name with a value. */
    method RevQuery(value: string) returns (name: string)
      requires Valid()
      requires |value| == size
      ensures name != "" <==> exists k :: k in contents && contents[k] == value
      ensures name != "" ==> name in contents && contents[name] == value
    {
      hide Sorting.Distinct;
      for i := 0 to |names|
        invariant forall j :: 0 <= j < i ==> names[j] in contents && contents[names[j]] != value
      {
        Lookup(names, values, size, contents, i);
        if Chunk(values, size, i) == value {
          NamesAre(names, values, size, contents, names[i]);
          return names[i];
        }
      }
      forall k | k in contents ensures contents[k] != value {
        NamesAre(names, values, size, contents, k);
        var j :| 0 <= j < |names| && names[j] == k;
      }
      return "";
    }
  }
}
