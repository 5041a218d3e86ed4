/** The lexer's element types: a chain of live types linked newest first, a free list of unused
    ids through the same links, and a map from names to types.  The scoping flag that shares a
    word with the link is a field of its own. */
module TypeTable {
  import opened Lists
  import Sorting

  const ET_NULL := 0x7FFF_FFFF

  /** `factory` 0 marks an unused id. */
  datatype ElementType = ElementType(factory: nat, thunk: int, name: string, next: int, scoped: bool)

  // ----- Lists

  /** The links from `head` spell out `s`, ending in `nil`. */
  ghost predicate Linked(types: seq<ElementType>, head: int, s: seq<nat>, nil: int) {
    && head == First(s, nil)
    && forall i :: 0 <= i < |s| ==> s[i] < |types| && types[s[i]].next == Next(s, i, nil)
  }

  function Without(s: seq<nat>, i: nat): seq<nat>
    requires i < |s|
  {
    s[..i] + s[i + 1..]
  }

  lemma WithoutMembers(s: seq<nat>, i: nat)
    requires Sorting.Distinct(s) && i < |s|
    ensures Sorting.Distinct(Without(s, i)) && s[i] !in Without(s, i)
    ensures forall x :: x in s <==> x == s[i] || x in Without(s, i)
  {
    var t := Without(s, i);
    forall k | 0 <= k < |t| ensures t[k] == s[if k < i then k else k + 1] {}
    forall x | x in s && x != s[i] ensures x in t {
      var k :| 0 <= k < |s| && s[k] == x;
      assert t[if k < i then k else k - 1] == x;
    }
  }

  // ----- The table

  /** The newest live type of a name: the first one in the chain. */
  ghost function Newest(types: seq<ElementType>, chain: seq<nat>, name: string): int {
    if chain == [] then -1
    else if chain[0] < |types| && types[chain[0]].name == name then chain[0]
    else Newest(types, chain[1..], name)
  }

  ghost predicate MapOkAt(types: seq<ElementType>, chain: seq<nat>, typeMap: map<string, int>, name: string) {
    if name in typeMap then typeMap[name] >= 0 && typeMap[name] == Newest(types, chain, name)
    else Newest(types, chain, name) == -1
  }

  /** Every name in use is mapped to the newest live type of that name. */
  ghost predicate MapOk(types: seq<ElementType>, chain: seq<nat>, typeMap: map<string, int>) {
    forall name :: name != "" ==> MapOkAt(types, chain, typeMap, name)
  }

  /** Live chain and free list partition the ids. */
  ghost predicate IdsOk(types: seq<ElementType>, last: int, free: int, chain: seq<nat>, unused: seq<nat>) {
    && |types| <= ET_NULL
    && Linked(types, last, chain, ET_NULL) && Linked(types, free, unused, -1)
    && Sorting.Distinct(chain) && Sorting.Distinct(unused)
    && (forall id: nat :: id < |types| ==> (id in chain <==> types[id].factory != 0))
    && (forall id: nat :: id < |types| ==> (id in unused <==> types[id].factory == 0))
  }

  // ----- Adding

  lemma LinkedFrame(types: seq<ElementType>, types': seq<ElementType>, head: int, s: seq<nat>, nil: int)
    requires Linked(types, head, s, nil) && |types| <= |types'|
    requires forall i :: 0 <= i < |s| && s[i] < |types| ==> types'[s[i]].next == types[s[i]].next
    ensures Linked(types', head, s, nil)
  {
  }

  lemma LinkedCons(types: seq<ElementType>, head: int, s: seq<nat>, nil: int, id: nat)
    requires Linked(types, head, s, nil) && id < |types| && types[id].next == head && id !in s
    ensures Linked(types, id, [id] + s, nil)
  {
    var t := [id] + s;
    forall i | 0 <= i < |t| ensures t[i] < |types| && types[t[i]].next == Next(t, i, nil) {
      if i > 0 { assert t[i] == s[i - 1] && Next(t, i, nil) == Next(s, i - 1, nil); }
    }
  }

  lemma LinkedTail(types: seq<ElementType>, head: int, s: seq<nat>, nil: int)
    requires Linked(types, head, s, nil) && s != []
    ensures Linked(types, types[s[0]].next, s[1..], nil)
  {
    var t := s[1..];
    assert types[s[0]].next == Next(s, 0, nil);
    forall i | 0 <= i < |t| ensures t[i] < |types| && types[t[i]].next == Next(t, i, nil) {
      assert t[i] == s[i + 1] && Next(t, i, nil) == Next(s, i + 1, nil);
    }
  }

  /** Redirecting the link before position `i` takes `s[i]` out. */
  lemma LinkedWithout(types: seq<ElementType>, types': seq<ElementType>, head: int, s: seq<nat>, nil: int, i: nat)
    requires Linked(types, head, s, nil) && i < |s| && |types| == |types'|
    requires forall k :: 0 <= k < |s| && k != i && k != i - 1 && s[k] < |types| ==>
        types'[s[k]].next == types[s[k]].next
    requires i > 0 ==> types'[s[i - 1]].next == types[s[i]].next
    ensures Linked(types', if i == 0 then types[s[0]].next else head, Without(s, i), nil)
  {
    hide Without, Next;
    WithoutShape(s, i);
    FollowShape(s, i, nil);
    var t := Without(s, i);
    assert types[s[i]].next == Next(s, i, nil);
    forall k | 0 <= k < |t| ensures t[k] < |types'| && types'[t[k]].next == Next(t, k, nil) {
      WithoutFollow(s, i, k, nil);
    }
  }

  lemma WithoutShape(s: seq<nat>, i: nat)
    requires i < |s|
    ensures |Without(s, i)| == |s| - 1
    ensures |s| > 1 ==> Without(s, i)[0] == if i == 0 then s[1] else s[0]
  {
  }

  lemma FollowShape(s: seq<nat>, i: nat, nil: int)
    requires i < |s|
    ensures Next(s, i, nil) == if i + 1 < |s| then s[i + 1] else nil
  {
  }

  lemma WithoutFollow(s: seq<nat>, i: nat, k: nat, nil: int)
    requires i < |s| && k < |s| - 1
    ensures var t := Without(s, i); var m := if k < i then k else k + 1;
            t[k] == s[m] && Next(t, k, nil) == if k == i - 1 then Next(s, i, nil) else Next(s, m, nil)
  {
  }

  // ----- The name map

  lemma {:induction false} NewestFrame(types: seq<ElementType>, types': seq<ElementType>, chain: seq<nat>, name: string)
    requires forall i :: 0 <= i < |chain| ==>
        chain[i] < |types| && chain[i] < |types'| && types'[chain[i]].name == types[chain[i]].name
    ensures Newest(types', chain, name) == Newest(types, chain, name)
    decreases |chain|
  {
    if chain != [] { NewestFrame(types, types', chain[1..], name); }
  }

  lemma {:induction false} NewestIs(types: seq<ElementType>, chain: seq<nat>, name: string)
    requires forall i :: 0 <= i < |chain| ==> chain[i] < |types|
    ensures var t := Newest(types, chain, name);
            && (t < 0 ==> t == -1 && forall i :: 0 <= i < |chain| ==> types[chain[i]].name != name)
            && (t >= 0 ==> exists i :: 0 <= i < |chain| && chain[i] == t && types[t].name == name
                                       && forall j :: 0 <= j < i ==> types[chain[j]].name != name)
    decreases |chain|
  {
    if chain != [] && types[chain[0]].name != name {
      var rest := chain[1..];
      NewestIs(types, rest, name);
      var t := Newest(types, rest, name);
      if t >= 0 {
        var i :| 0 <= i < |rest| && rest[i] == t && types[t].name == name && forall j :: 0 <= j < i ==>
            types[rest[j]].name != name;
        assert chain[i + 1] == t;
        forall j | 0 <= j < i + 1 ensures types[chain[j]].name != name {
          if j > 0 { assert chain[j] == rest[j - 1]; }
        }
      }
    }
  }

  /** Taking out one type changes the newest type of its own name only. */
  lemma {:induction false} NewestWithout(types: seq<ElementType>, chain: seq<nat>, i: nat, name: string)
    requires Sorting.Distinct(chain) && i < |chain| && forall k :: 0 <= k < |chain| ==> chain[k] < |types|
    ensures Newest(types, Without(chain, i), name) ==
            if Newest(types, chain, name) == chain[i]
                then Newest(types, chain[i + 1..], name) else Newest(types, chain, name)
    decreases i
  {
    var t := Without(chain, i);
    if i == 0 {
      assert t == chain[1..];
      if types[chain[0]].name != name { NewestIs(types, chain[1..], name); }
    } else {
      assert t[0] == chain[0] && t[1..] == Without(chain[1..], i - 1) && chain[1..][i..] == chain[i + 1..];
      NewestWithout(types, chain[1..], i - 1, name);
    }
  }

  // ----- State changes

  /** Everything about an id but its link. */
  ghost predicate SameType(types: seq<ElementType>, types': seq<ElementType>, id: nat)
    requires id < |types| && id < |types'|
  {
    types'[id] == types[id].(next := types'[id].next)
  }

  lemma AddIds(types: seq<ElementType>, last: int, free: int, chain: seq<nat>, unused: seq<nat>,
               types': seq<ElementType>, tid: nat, free': int, unused': seq<nat>)
    requires IdsOk(types, last, free, chain, unused) && |types'| <= ET_NULL && tid < |types'|
    requires if free < 0 then tid == |types| && |types'| == tid + 1 && free' == free && unused' == unused else
        tid == free && |types'| == |types| && unused != [] && unused' == unused[1..]
                 && free' == types[tid].next
    requires types'[tid].factory != 0 && types'[tid].next == last
    requires forall id :: 0 <= id < |types| && id != tid ==> types'[id] == types[id]
    ensures tid !in chain && IdsOk(types', tid, free', [tid] + chain, unused')
  {
    hide Linked, Sorting.Distinct;
    assert free >= 0 ==> unused[0] == tid by { LinkedHead(types, free, unused, -1); }
    assert tid !in chain by { LinkedBounds(types, last, chain, ET_NULL); }
    LinkedBounds(types, last, chain, ET_NULL);
    LinkedBounds(types, free, unused, -1);
    LinkedFrame(types, types', last, chain, ET_NULL);
    LinkedCons(types', last, chain, ET_NULL, tid);
    if free >= 0 {
      LinkedTail(types, free, unused, -1);
      DistinctTail(unused);
    }
    LinkedFrame(types, types', free', unused', -1);
    DistinctCons(tid, chain);
  }

  lemma LinkedHead(types: seq<ElementType>, head: int, s: seq<nat>, nil: int)
    requires Linked(types, head, s, nil)
    ensures head == First(s, nil)
  {
  }

  lemma LinkedBounds(types: seq<ElementType>, head: int, s: seq<nat>, nil: int)
    requires Linked(types, head, s, nil)
    ensures forall i :: 0 <= i < |s| ==> s[i] < |types|
    ensures forall x :: x in s ==> x < |types|
  {
  }

  lemma AddMap(types: seq<ElementType>, chain: seq<nat>, typeMap: map<string, int>, types': seq<ElementType>, tid: nat,
      name: string)
    requires MapOk(types, chain, typeMap) && tid < |types'| && types'[tid].name == name
    requires forall i :: 0 <= i < |chain| ==>
        chain[i] < |types| && chain[i] < |types'| && types'[chain[i]].name == types[chain[i]].name
    ensures MapOk(types', [tid] + chain, if name != "" then typeMap[name := tid] else typeMap)
  {
    var chain' := [tid] + chain;
    assert chain'[1..] == chain;
    var typeMap' := if name != "" then typeMap[name := tid] else typeMap;
    forall n | n != "" ensures MapOkAt(types', chain', typeMap', n) {
      MapOkOpen(types, chain, typeMap, n);
      NewestFrame(types, types', chain, n);
    }
  }

  lemma RemoveIds(types: seq<ElementType>, last: int, free: int, chain: seq<nat>, unused: seq<nat>, i: nat,
                  types': seq<ElementType>, last': int)
    requires IdsOk(types, last, free, chain, unused) && i < |chain| && |types'| == |types|
    requires types'[chain[i]].factory == 0 && types'[chain[i]].next == free
    requires last' == if i == 0 then types[chain[0]].next else last
    requires i > 0 ==> types'[chain[i - 1]] == types[chain[i - 1]].(next := types[chain[i]].next)
    requires forall id: nat :: id < |types| && id != chain[i] && (i > 0 ==>
        id != chain[i - 1]) ==> types'[id] == types[id]
    ensures IdsOk(types', last', chain[i], Without(chain, i), [chain[i]] + unused)
  {
    hide Linked, Sorting.Distinct;
    var r := chain[i];
    LinkedBounds(types, last, chain, ET_NULL);
    LinkedBounds(types, free, unused, -1);
    assert r !in unused;
    LinkedHead(types, last, chain, ET_NULL);
    forall k | 0 <= k < |chain| && k != i && k != i - 1 && chain[k] < |types|
        ensures types'[chain[k]].next == types[chain[k]].next {
      DistinctApart(chain, k, i);
      if i > 0 { DistinctApart(chain, k, i - 1); }
    }
    if i > 0 { DistinctApart(chain, i - 1, i); }
    LinkedWithout(types, types', last, chain, ET_NULL, i);
    WithoutMembers(chain, i);
    LinkedFrame(types, types', free, unused, -1);
    LinkedCons(types', free, unused, -1, r);
    DistinctCons(r, unused);
  }

  lemma NewestRange(types: seq<ElementType>, chain: seq<nat>, name: string)
    requires forall i :: 0 <= i < |chain| ==> chain[i] < |types|
    ensures Newest(types, chain, name) >= -1
  {
    NewestIs(types, chain, name);
  }

  lemma NewestNamed(types: seq<ElementType>, chain: seq<nat>, name: string)
    requires forall i :: 0 <= i < |chain| ==> chain[i] < |types|
    ensures Newest(types, chain, name) >= 0 ==>
        Newest(types, chain, name) < |types| && types[Newest(types, chain, name)].name == name
  {
    NewestIs(types, chain, name);
  }

  lemma RemoveMap(types: seq<ElementType>, chain: seq<nat>, i: nat, typeMap: map<string, int>,
      types': seq<ElementType>, typeMap': map<string, int>)
    requires Sorting.Distinct(chain) && i < |chain| && MapOk(types, chain, typeMap)
    requires forall k :: 0 <= k < |chain| ==> chain[k] < |types| && chain[k] < |types'|
    requires forall k :: 0 <= k < |chain| && k != i ==> types'[chain[k]].name == types[chain[k]].name
    requires var name := types[chain[i]].name;
             var next := Newest(types, chain[i + 1..], name);
             typeMap' == if name != "" && name in typeMap && typeMap[name] == chain[i]
                         then (if next == -1 then typeMap - {name} else typeMap[name := next]) else typeMap
    ensures MapOk(types', Without(chain, i), typeMap')
  {
    hide Newest, Without, Sorting.Distinct, MapOk;
    var t, name := Without(chain, i), types[chain[i]].name;
    WithoutSame(types, types', chain, i);
    forall n | n != "" ensures MapOkAt(types', t, typeMap', n) {
      MapOkOpen(types, chain, typeMap, n);
      NewestFrame(types, types', t, n);
      NewestWithout(types, chain, i, n);
      if n == name {
        NewestRange(types, chain[i + 1..], name);
      } else {
        NewestNamed(types, chain, n);
      }
    }
    MapOkClose(types', t, typeMap');
  }

  lemma WithoutSame(types: seq<ElementType>, types': seq<ElementType>, chain: seq<nat>, i: nat)
    requires i < |chain| && forall k :: 0 <= k < |chain| ==> chain[k] < |types| && chain[k] < |types'|
    requires forall k :: 0 <= k < |chain| && k != i ==> types'[chain[k]].name == types[chain[k]].name
    ensures var t := Without(chain, i);
            forall k :: 0 <= k < |t| ==> t[k] < |types| && t[k] < |types'| && types'[t[k]].name == types[t[k]].name
  {
    var t := Without(chain, i);
    forall k | 0 <= k < |t| ensures t[k] == chain[if k < i then k else k + 1] {}
  }

  lemma MapOkOpen(types: seq<ElementType>, chain: seq<nat>, typeMap: map<string, int>, name: string)
    requires MapOk(types, chain, typeMap) && name != ""
    ensures MapOkAt(types, chain, typeMap, name)
  {
  }

  lemma MapOkClose(types: seq<ElementType>, chain: seq<nat>, typeMap: map<string, int>)
    requires forall name :: name != "" ==> MapOkAt(types, chain, typeMap, name)
    ensures MapOk(types, chain, typeMap)
  {
  }

  lemma ChainFacts(types: seq<ElementType>, last: int, free: int, chain: seq<nat>, unused: seq<nat>)
    requires IdsOk(types, last, free, chain, unused)
    ensures Linked(types, last, chain, ET_NULL) && Sorting.Distinct(chain) && |types| <= ET_NULL
    ensures last == (if chain == [] then ET_NULL else chain[0])
    ensures forall i :: 0 <= i < |chain| ==> chain[i] < |types|
  {
  }

  lemma LiveIs(types: seq<ElementType>, last: int, free: int, chain: seq<nat>, unused: seq<nat>, id: nat)
    requires IdsOk(types, last, free, chain, unused) && id < |types|
    ensures id in chain <==> types[id].factory != 0
  {
  }

  lemma LinkNext(types: seq<ElementType>, last: int, chain: seq<nat>, m: nat)
    requires Linked(types, last, chain, ET_NULL) && m < |chain|
    ensures chain[m] < |types| && types[chain[m]].next == if m + 1 < |chain| then chain[m + 1] else ET_NULL
  {
  }

  /** The types of `s` that survive their scope. */
  ghost function Unscoped(types: seq<ElementType>, s: seq<nat>): seq<nat>
    requires forall i :: 0 <= i < |s| ==> s[i] < |types|
  {
    if s == [] then []
    else Unscoped(types, s[..|s| - 1]) + if types[s[|s| - 1]].scoped then [] else [s[|s| - 1]]
  }

  /** Where the cookie stands in the chain, or the chain's end. */
  ghost function CookieAt(chain: seq<nat>, cookie: int): (k: nat)
    ensures k <= |chain| && (k < |chain| ==> chain[k] == cookie)
    ensures forall i :: 0 <= i < k ==> chain[i] != cookie
  {
    if chain == [] || chain[0] == cookie then 0 else 1 + CookieAt(chain[1..], cookie)
  }

  /** Live types keep everything but their link. */
  ghost predicate KeepsLive(types: seq<ElementType>, types': seq<ElementType>, chain: seq<nat>) {
    |types| == |types'| && forall i :: 0 <= i < |chain| ==> chain[i] < |types| && SameType(types, types', chain[i])
  }

  /** Of the types newer than the cookie only the unscoped ones are left; the rest of the chain
      and everything about the types left is as before. */
  ghost predicate ScopeLeft(t0: seq<ElementType>, chain0: seq<nat>, types: seq<ElementType>, chain: seq<nat>,
      cookie: int) {
    var k := CookieAt(chain0, cookie);
    && (forall i :: 0 <= i < |chain0| ==> chain0[i] < |t0|)
    && chain == Unscoped(t0, chain0[..k]) + chain0[k..]
    && KeepsLive(t0, types, chain)
  }

  /** The id of the next type: one that is free, or a new one. */
  function FreeId(types: seq<ElementType>, unused: seq<nat>): nat {
    if unused == [] then |types| else unused[0]
  }

  function Rest(s: seq<nat>): seq<nat> {
    if s == [] then [] else s[1..]
  }

  function Put(types: seq<ElementType>, tid: nat, t: ElementType): seq<ElementType> {
    if tid < |types| then types[tid := t] else types + [t]
  }

  class Lexer {
    var types: seq<ElementType>
    var last: int
    var free: int
    var typeMap: map<string, int>
    ghost var chain: seq<nat>
    ghost var unused: seq<nat>

    ghost predicate Valid()
      reads this
    {
      IdsOk(types, last, free, chain, unused) && MapOk(types, chain, typeMap)
    }

    lemma Open()
      requires Valid()
      ensures IdsOk(types, last, free, chain, unused) && MapOk(types, chain, typeMap)
    {
    }

    lemma Close()
      requires IdsOk(types, last, free, chain, unused) && MapOk(types, chain, typeMap)
      ensures Valid()
    {
    }

    constructor ()
      ensures Valid() && chain == []
    {
      types, last, free, typeMap, chain, unused := [], ET_NULL, -1, map[], [], [];
    }

    /** `add_element_type`: the new type is the newest, with an id that was not live. */
    method AddElementType(name: string, factory: nat, thunk: int, scoped: bool) returns (tid: nat)
      requires Valid() && factory != 0 && |types| < ET_NULL
      modifies this
      ensures Valid() && chain == [tid] + old(chain) && tid !in old(chain)
      ensures tid == FreeId(old(types), old(unused)) && unused == Rest(old(unused))
      ensures tid < |types| && types == Put(old(types), tid, ElementType(factory, thunk, name, old(last), scoped))
    {
      hide MapOk, Linked, Sorting.Distinct;
      ghost var t0, unused0, free0 := types, unused, free;
      LinkedBounds(types, last, chain, ET_NULL);
      LinkedBounds(types, free, unused, -1);
      LinkedHead(types, free, unused, -1);
      if free < 0 {
        tid := |types|;
        types := types + [ElementType(0, 0, "", -1, false)];
      } else {
        tid := free;
        free := types[tid].next;
        unused := unused[1..];
      }
      types := types[tid := ElementType(factory, thunk, name, last, scoped)];
      AddIds(t0, last, free0, chain, unused0, types, tid, free, unused);
      AddMap(t0, chain, typeMap, types, tid, name);
      if name != "" {
        typeMap := typeMap[name := tid];
      }
      last := tid;
      chain := [tid] + chain;
    }

    /** The type whose link leads to a live type; -1 stands for the chain's head. */
    method FindPrev(removed: nat) returns (prev: int, ghost i: nat)
      requires Valid() && removed in chain
      ensures i < |chain| && chain[i] == removed && prev == (if i == 0 then -1 else chain[i - 1])
    {
      hide *;
      Open();
      ChainFacts(types, last, free, chain, unused);
      prev := -1;
      i := 0;
      assert chain[0..] == chain;
      var cur := last;
      while cur != removed
        invariant i < |chain| && prev == (if i == 0 then -1 else chain[i - 1]) && cur == chain[i]
        invariant removed in chain[i..]
        decreases |chain| - i
      {
        assert chain[i..] == [chain[i]] + chain[i + 1..];
        LinkNext(types, last, chain, i);
        prev := cur;
        cur := types[cur].next;
        i := i + 1;
      }
    }

    /** The next older live type with the same name. */
    method FindOlder(removed: nat, ghost i: nat) returns (trav: int)
      requires Valid() && i < |chain| && removed == chain[i]
      ensures trav == Newest(types, chain[i + 1..], types[chain[i]].name)
    {
      hide *;
      Open();
      ChainFacts(types, last, free, chain, unused);
      var name := types[removed].name;
      LinkNext(types, last, chain, i);
      trav := types[removed].next;
      ghost var k := i + 1;
      while trav != ET_NULL && types[trav].name != name
        invariant i < k <= |chain| && trav == (if k < |chain| then chain[k] else ET_NULL)
        invariant Newest(types, chain[i + 1..], name) == Newest(types, chain[k..], name)
        decreases |chain| - k
      {
        LinkNext(types, last, chain, k);
        NewestSkip(types, chain, k, name);
        trav := types[trav].next;
        k := k + 1;
      }
      NewestHere(types, chain, k, name);
      if trav == ET_NULL {
        trav := -1;
      }
    }

    /** Take out the type at position `i` of the chain, `prev` being the place of the link to it. */
    method Unlink(removed: nat, prev: int, ghost i: nat)
      requires Valid() && i < |chain| && chain[i] == removed && prev == (if i == 0 then -1 else chain[i - 1])
      modifies this
      ensures Valid() && chain == Without(old(chain), i) && unused == [removed] + old(unused)
      ensures KeepsLive(old(types), types, chain) && |types| == |old(types)|
      ensures (prev < 0 ==> last == old(types)[removed].next)
          && (prev >= 0 ==> types[prev].next == old(types)[removed].next)
    {
      hide *;
      Open();
      ghost var t0, map0, last0, free0 := types, typeMap, last, free;
      ChainFacts(types, last, free, chain, unused);
      if i > 0 { DistinctApart(chain, i - 1, i); }
      var older := FindOlder(removed, i);
      if prev < 0 {
        last := types[removed].next;
      } else {
        types := types[prev := types[prev].(next := types[removed].next)];
      }
      var name := types[removed].name;
      if name != "" && name in typeMap && typeMap[name] == removed {
        if older == -1 {
          typeMap := typeMap - {name};
        } else {
          typeMap := typeMap[name := older];
        }
      }
      types := types[removed := types[removed].(factory := 0, name := "", next := free)];
      free := removed;
      UnlinkedIs(t0, chain, i, free0, types);
      UnlinkedTable(t0, last0, free0, chain, unused, map0, i, types, last, typeMap, older);
      UnlinkedKeeps(t0, chain, i, free0, types);
      chain, unused := Without(chain, i), [removed] + unused;
      Close();
    }

    /** `remove_element_type` with an optional hint where the link to the type is: -1 for the
        chain's head, a type id for that type's link, -2 for no hint. */
    method RemoveElementType(removed: int, hint: int) returns (r: int)
      requires Valid() && -2 <= hint < |types| && (hint >= 0 ==> types[hint].factory != 0)
      modifies this
      ensures Valid()
      ensures r == 0 <==> 0 <= removed < |old(types)| && removed in old(chain)
      ensures r != 0 ==>
          && r == -1 && types == old(types) && chain == old(chain) && unused == old(unused)
          && last == old(last) && typeMap == old(typeMap)
      ensures r == 0 ==> exists i ::
          0 <= i < |old(chain)| && old(chain)[i] == removed && chain == Without(old(chain), i)
      ensures r == 0 ==> KeepsLive(old(types), types, chain) && unused == [removed] + old(unused)
      ensures r == 0 ==> |types| == |old(types)|
      ensures r == 0 && hint == -1 && old(last) == removed ==> last == old(types)[removed].next
      ensures r == 0 && hint >= 0 && old(types)[hint].next == removed ==> types[hint].next == old(types)[removed].next
    {
      hide *;
      Open();
      ChainFacts(types, last, free, chain, unused);
      if removed < 0 || removed >= |types| {
        return -1;
      }
      LiveIs(types, last, free, chain, unused, removed);
      if types[removed].factory == 0 {
        return -1;
      }
      var prev := hint;
      ghost var i;
      if hint == -2 || (if hint < 0 then last else types[hint].next) != removed {
        prev, i := FindPrev(removed);
      } else {
        i := PrevPosition(types, last, free, chain, unused, prev, removed);
      }
      Unlink(removed, prev, i);
      r := 0;
    }

    /** `lexical_scoping_in`: the cookie is the newest type. */
    method LexicalScopingIn() returns (cookie: int)
      requires Valid()
      ensures cookie == First(chain, ET_NULL) && (chain != [] ==> CookieAt(chain, cookie) == 0)
    {
      return last;
    }

    /** One turn of leaving a scope: the type the link at `prev` leads to goes or stays. */
    method ScopeTurn(ghost t0: seq<ElementType>, ghost chain0: seq<nat>, ghost done: nat, ghost kept: seq<nat>,
        prev: int, cur: nat)
      returns (prev': int, ghost kept': seq<nat>)
      requires Valid() && ScopeState(t0, chain0, types, chain, done, kept, prev, cur)
      requires Sorting.Distinct(chain) && done < |chain0| && cur != ET_NULL && cur < |types| && cur in chain
      requires -1 <= prev < |types| && (prev >= 0 ==> types[prev].factory != 0)
      requires cur == if prev < 0 then last else types[prev].next
      modifies this
      ensures Valid() && |types| == |old(types)| && -1 <= prev' < |types|
      ensures (if prev' < 0 then last else types[prev'].next) == old(types)[cur].next
      ensures ScopeState(t0, chain0, types, chain, done + 1, kept', prev', if done + 1 < |chain0|
          then chain0[done + 1] else ET_NULL)
    {
      hide *;
      ghost var t1, chain1 := types, chain;
      if types[cur].scoped {
        var _ := RemoveElementType(cur, prev);
        ScopeRemove(t0, chain0, t1, chain1, types, chain, done, kept, prev, cur);
        prev', kept' := prev, kept;
      } else {
        ScopeKeep(t0, chain0, types, chain, done, kept, prev, cur);
        prev', kept' := cur, kept + [cur];
      }
    }

    method ScopeNext(ghost t0: seq<ElementType>, ghost chain0: seq<nat>, ghost done: nat, ghost kept: seq<nat>,
        prev: int, cur: int)
      returns (prev': int, cur': int, ghost kept': seq<nat>)
      requires Valid() && ScopeState(t0, chain0, types, chain, done, kept, prev, cur) && cur != ET_NULL
      modifies this
      ensures Valid() && done < |chain0| && chain0[done] == cur
      ensures ScopeState(t0, chain0, types, chain, done + 1, kept', prev', cur')
    {
      hide *;
      Open();
      ChainFacts(types, last, free, chain, unused);
      ScopeFacts(t0, chain0, types, last, chain, done, kept, prev, cur);
      LiveIs(types, last, free, chain, unused, cur);
      if prev >= 0 { LiveIs(types, last, free, chain, unused, prev); }
      prev', kept' := ScopeTurn(t0, chain0, done, kept, prev, cur);
      cur' := if prev' < 0 then last else types[prev'].next;
    }

    /** `lexical_scoping_out`: of the types newer than the cookie the scoped ones go, all others
        stay in order. */
    method LexicalScopingOut(cookie: int)
      requires Valid()
      modifies this
      ensures Valid()
      ensures ScopeLeft(old(types), old(chain), types, chain, cookie)
    {
      hide *;
      ghost var t0, chain0 := types, chain;
      Open();
      ChainFacts(types, last, free, chain, unused);
      ghost var done: nat, kept: seq<nat> := 0, [];
      ScopeStart(t0, chain0, last);
      NotMetStart(chain0, cookie);
      var prev := -1;
      var cur := last;
      while cur != cookie && cur != ET_NULL
        invariant Valid() && ScopeState(t0, chain0, types, chain, done, kept, prev, cur)
        invariant done <= |chain0| && NotMet(chain0, done, cookie)
        decreases |chain0| - done
      {
        prev, cur, kept := ScopeNext(t0, chain0, done, kept, prev, cur);
        NotMetStep(chain0, done, cookie);
        done := done + 1;
      }
      ScopeEnd(t0, chain0, types, chain, done, kept, prev, cur, cookie);
    }
  }

  /** Halfway through leaving a scope: `done` types were looked at, `kept` of them stay. */
  ghost predicate ScopeState(t0: seq<ElementType>, chain0: seq<nat>, types: seq<ElementType>, chain: seq<nat>,
                             done: nat, kept: seq<nat>, prev: int, cur: int) {
    && done <= |chain0| && (forall i :: 0 <= i < |chain0| ==> chain0[i] < |t0|)
    && kept == Unscoped(t0, chain0[..done]) && chain == kept + chain0[done..]
    && KeepsLive(t0, types, chain)
    && prev == (if kept == [] then -1 else kept[|kept| - 1])
    && cur == (if done < |chain0| then chain0[done] else ET_NULL)
  }

  ghost predicate NotMet(chain: seq<nat>, n: nat, cookie: int)
    requires n <= |chain|
  {
    forall i :: 0 <= i < n ==> chain[i] != cookie
  }

  /** A cookie whose type was removed meanwhile, and whose id a scoped type has taken: leaving the
      scope stops at once, and the scoped type stays. */
  method StaleCookie(lexer: Lexer, name: string, factory: nat, thunk: int) returns (cookie: int, tid: nat)
    requires lexer.Valid() && lexer.chain != [] && factory != 0 && |lexer.types| < ET_NULL
    modifies lexer
    ensures lexer.Valid() && cookie == old(lexer.chain)[0] == tid
    ensures lexer.chain == [tid] + old(lexer.chain)[1..] && tid < |lexer.types| && lexer.types[tid].scoped
  {
    hide *;
    ghost var outer := lexer.chain;
    cookie := lexer.LexicalScopingIn();
    FirstOf(outer, ET_NULL);
    FirstLive(lexer);
    var r := lexer.RemoveElementType(cookie, -2);
    assert r == 0;
    assert lexer.chain == outer[1..] by {
      var i :| 0 <= i < |outer| && outer[i] == cookie && lexer.chain == Without(outer, i);
      FirstRemoved(outer, i);
    }
    ghost var before, last, unused := lexer.types, lexer.last, lexer.unused;
    tid := lexer.AddElementType(name, factory, thunk, true);
    PutAt(before, unused, ElementType(factory, thunk, name, last, true));
    ghost var t0, chain0 := lexer.types, lexer.chain;
    lexer.LexicalScopingOut(cookie);
    NothingLeft(t0, chain0, lexer.types, lexer.chain, cookie);
  }

  lemma PutAt(types: seq<ElementType>, unused: seq<nat>, t: ElementType)
    requires unused != [] && FreeId(types, unused) < |Put(types, FreeId(types, unused), t)|
    ensures FreeId(types, unused) == unused[0] && Put(types, unused[0], t)[unused[0]] == t
  {
  }

  lemma NotMetStart(chain: seq<nat>, cookie: int)
    ensures NotMet(chain, 0, cookie)
  {
  }

  lemma NotMetStep(chain: seq<nat>, n: nat, cookie: int)
    requires n < |chain| && NotMet(chain, n, cookie) && chain[n] != cookie
    ensures NotMet(chain, n + 1, cookie)
  {
  }

  lemma ScopeStart(t0: seq<ElementType>, chain0: seq<nat>, last: int)
    requires (forall i :: 0 <= i < |chain0| ==> chain0[i] < |t0|)
        && last == (if chain0 == [] then ET_NULL else chain0[0])
    ensures ScopeState(t0, chain0, t0, chain0, 0, [], -1, last)
  {
    assert chain0[..0] == [] && chain0 == [] + chain0[0..];
    LiveRefl(t0, chain0);
  }

  lemma ScopeFacts(t0: seq<ElementType>, chain0: seq<nat>, types: seq<ElementType>, last: int, chain: seq<nat>,
                   done: nat, kept: seq<nat>, prev: int, cur: int)
    requires ScopeState(t0, chain0, types, chain, done, kept, prev, cur) && cur != ET_NULL
    requires Linked(types, last, chain, ET_NULL)
    ensures done < |chain0| && |types| == |t0| && cur == chain0[done] && 0 <= cur < |types| && cur in chain
    ensures |kept| < |chain| && chain[|kept|] == cur && (kept != [] ==> chain[|kept| - 1] == prev)
        && -1 <= prev < |types|
    ensures prev >= 0 ==> prev in chain
    ensures cur == (if prev < 0 then last else types[prev].next)
    ensures types[cur].next == (if done + 1 < |chain0| then chain0[done + 1] else ET_NULL)
  {
    var m := |kept|;
    assert chain[m] == cur && (kept != [] ==> chain[m - 1] == prev);
    LinkNext(types, last, chain, m);
    if m > 0 { LinkNext(types, last, chain, m - 1); }
    assert m + 1 < |chain| ==> chain[m + 1] == chain0[done + 1];
  }

  lemma ScopeKeep(t0: seq<ElementType>, chain0: seq<nat>, types: seq<ElementType>, chain: seq<nat>,
                  done: nat, kept: seq<nat>, prev: int, cur: nat)
    requires ScopeState(t0, chain0, types, chain, done, kept, prev, cur) && cur != ET_NULL && cur in chain
        && cur < |types|
    requires !types[cur].scoped && done < |chain0|
    ensures ScopeState(t0, chain0, types, chain, done + 1, kept + [cur], cur, if done + 1 < |chain0|
        then chain0[done + 1] else ET_NULL)
  {
    assert chain[|kept|] == cur;
    LiveAt(t0, types, chain, |kept|);
    UnscopedStep(t0, chain0, done);
    assert chain == kept + [cur] + chain0[done + 1..];
  }

  lemma ScopeRemove(t0: seq<ElementType>, chain0: seq<nat>, types: seq<ElementType>, chain: seq<nat>,
                    types': seq<ElementType>, chain': seq<nat>, done: nat, kept: seq<nat>, prev: int, cur: nat)
    requires ScopeState(t0, chain0, types, chain, done, kept, prev, cur) && cur != ET_NULL && cur in chain
        && cur < |types|
    requires types[cur].scoped && Sorting.Distinct(chain) && done < |chain0|
    requires exists i :: 0 <= i < |chain| && chain[i] == cur && chain' == Without(chain, i)
    requires KeepsLive(types, types', chain')
    ensures ScopeState(t0, chain0, types', chain', done + 1, kept, prev, if done + 1 < |chain0|
        then chain0[done + 1] else ET_NULL)
  {
    var m := |kept|;
    var i :| 0 <= i < |chain| && chain[i] == cur && chain' == Without(chain, i);
    assert chain[m] == cur;
    assert i == m;
    LiveAt(t0, types, chain, m);
    UnscopedStep(t0, chain0, done);
    WithoutSplit(kept, chain0, done);
    LiveTrans(t0, types, types', chain, chain', m);
  }

  lemma ScopeEnd(t0: seq<ElementType>, chain0: seq<nat>, types: seq<ElementType>, chain: seq<nat>,
                 done: nat, kept: seq<nat>, prev: int, cur: int, cookie: int)
    requires ScopeState(t0, chain0, types, chain, done, kept, prev, cur)
    requires |t0| <= ET_NULL && (cur == cookie || cur == ET_NULL) && done <= |chain0| && NotMet(chain0, done, cookie)
    ensures ScopeLeft(t0, chain0, types, chain, cookie)
  {
    if done < |chain0| { assert chain0[done] < |t0|; }
    CookieUnique(chain0, cookie, done);
  }

  lemma LiveRefl(types: seq<ElementType>, chain: seq<nat>)
    requires forall i :: 0 <= i < |chain| ==> chain[i] < |types|
    ensures KeepsLive(types, types, chain)
  {
  }

  lemma LiveAt(t0: seq<ElementType>, types: seq<ElementType>, chain: seq<nat>, m: nat)
    requires KeepsLive(t0, types, chain) && m < |chain|
    ensures |types| == |t0| && chain[m] < |types| && types[chain[m]].scoped == t0[chain[m]].scoped
  {
    assert SameType(t0, types, chain[m]);
  }

  lemma LiveTrans(t0: seq<ElementType>, t1: seq<ElementType>, t2: seq<ElementType>, chain: seq<nat>, chain': seq<nat>,
      m: nat)
    requires KeepsLive(t0, t1, chain) && m < |chain| && chain' == Without(chain, m) && KeepsLive(t1, t2, chain')
    ensures KeepsLive(t0, t2, chain')
  {
    forall i | 0 <= i < |chain'| ensures chain'[i] < |t0| && SameType(t0, t2, chain'[i]) {
      assert chain'[i] == chain[if i < m then i else i + 1];
      assert SameType(t0, t1, chain[if i < m then i else i + 1]) && SameType(t1, t2, chain'[i]);
    }
  }

  lemma UnscopedStep(types: seq<ElementType>, chain: seq<nat>, n: nat)
    requires n < |chain| && forall i :: 0 <= i < |chain| ==> chain[i] < |types|
    ensures Unscoped(types, chain[..n + 1]) == Unscoped(types, chain[..n]) + if types[chain[n]].scoped
        then [] else [chain[n]]
  {
    assert chain[..n + 1][..n] == chain[..n];
  }

  lemma WithoutSplit(kept: seq<nat>, chain: seq<nat>, n: nat)
    requires n < |chain|
    ensures Without(kept + chain[n..], |kept|) == kept + chain[n + 1..]
  {
  }

  lemma NewestSkip(types: seq<ElementType>, chain: seq<nat>, k: nat, name: string)
    requires k < |chain| && chain[k] < |types| && types[chain[k]].name != name
    ensures Newest(types, chain[k..], name) == Newest(types, chain[k + 1..], name)
  {
    assert chain[k..][1..] == chain[k + 1..];
  }

  lemma NewestHere(types: seq<ElementType>, chain: seq<nat>, k: nat, name: string)
    requires k <= |chain| && (k < |chain| ==> chain[k] < |types|)
    ensures k == |chain| ==> Newest(types, chain[k..], name) == -1
    ensures k < |chain| && types[chain[k]].name == name ==> Newest(types, chain[k..], name) == chain[k]
  {
  }

  /** What unlinking does to the types and to the head of the chain. */
  ghost predicate Unlinked(t0: seq<ElementType>, chain: seq<nat>, i: nat, free: int, types: seq<ElementType>)
    requires i < |chain|
  {
    && |types| == |t0| && (forall k :: 0 <= k < |chain| ==> chain[k] < |t0|)
    && types[chain[i]] == t0[chain[i]].(factory := 0, name := "", next := free)
    && (i > 0 ==> types[chain[i - 1]] == t0[chain[i - 1]].(next := t0[chain[i]].next))
    && (forall id: nat :: id < |t0| && id != chain[i] && (i > 0 ==> id != chain[i - 1]) ==> types[id] == t0[id])
  }

  lemma UnlinkedIs(t0: seq<ElementType>, chain: seq<nat>, i: nat, free: int, types: seq<ElementType>)
    requires i < |chain| && (forall k :: 0 <= k < |chain| ==> chain[k] < |t0|) && (i > 0 ==> chain[i - 1] != chain[i])
    requires types == (if i > 0 then t0[chain[i - 1] := t0[chain[i - 1]].(next := t0[chain[i]].next)] else t0)
                      [chain[i] := t0[chain[i]].(factory := 0, name := "", next := free)]
    ensures Unlinked(t0, chain, i, free, types)
  {
  }

  lemma UnlinkedKeeps(t0: seq<ElementType>, chain: seq<nat>, i: nat, free: int, types: seq<ElementType>)
    requires i < |chain| && Sorting.Distinct(chain) && Unlinked(t0, chain, i, free, types)
    ensures forall k :: 0 <= k < |chain| && k != i ==> SameType(t0, types, chain[k])
    ensures KeepsLive(t0, types, Without(chain, i))
  {
    forall k | 0 <= k < |chain| && k != i ensures SameType(t0, types, chain[k]) {
      DistinctApart(chain, k, i);
    }
    var t := Without(chain, i);
    forall k | 0 <= k < |t| ensures t[k] < |t0| && SameType(t0, types, t[k]) {
      assert t[k] == chain[if k < i then k else k + 1];
    }
  }

  lemma UnlinkedTable(t0: seq<ElementType>, last: int, free: int, chain: seq<nat>, unused: seq<nat>,
      typeMap: map<string, int>, i: nat,
                      types: seq<ElementType>, last': int, typeMap': map<string, int>, older: int)
    requires IdsOk(t0, last, free, chain, unused) && MapOk(t0, chain, typeMap) && i < |chain|
    requires Unlinked(t0, chain, i, free, types)
    requires last' == if i == 0 then t0[chain[0]].next else last
    requires older == Newest(t0, chain[i + 1..], t0[chain[i]].name)
    requires var name := t0[chain[i]].name;
             typeMap' == if name != "" && name in typeMap && typeMap[name] == chain[i]
                         then (if older == -1 then typeMap - {name} else typeMap[name := older]) else typeMap
    ensures IdsOk(types, last', chain[i], Without(chain, i), [chain[i]] + unused)
        && MapOk(types, Without(chain, i), typeMap')
  {
    hide MapOk, Linked, Newest, Without;
    UnlinkedKeeps(t0, chain, i, free, types);
    RemoveIds(t0, last, free, chain, unused, i, types, last');
    RemoveMap(t0, chain, i, typeMap, types, typeMap');
  }

  lemma PrevPosition(types: seq<ElementType>, last: int, free: int, chain: seq<nat>, unused: seq<nat>, prev: int,
      removed: nat) returns (i: nat)
    requires IdsOk(types, last, free, chain, unused) && -1 <= prev < |types| && removed < |types| && removed in chain
    requires prev >= 0 ==> types[prev].factory != 0
    requires removed == if prev < 0 then last else types[prev].next
    ensures i < |chain| && chain[i] == removed && prev == (if i == 0 then -1 else chain[i - 1])
  {
    if prev < 0 {
      i := 0;
    } else {
      assert prev in chain;
      var k :| 0 <= k < |chain| && chain[k] == prev;
      assert types[chain[k]].next == Next(chain, k, ET_NULL);
      i := k + 1;
    }
  }

  lemma CookieUnique(chain: seq<nat>, cookie: int, k: nat)
    requires k <= |chain| && (k < |chain| ==> chain[k] == cookie) && forall i :: 0 <= i < k ==> chain[i] != cookie
    ensures CookieAt(chain, cookie) == k
  {
    var c := CookieAt(chain, cookie);
  }

  // ----- When a scope is left right

  ghost predicate NoneScoped(types: seq<ElementType>, s: seq<nat>)
    requires forall i :: 0 <= i < |s| ==> s[i] < |types|
  {
    forall i :: 0 <= i < |s| ==> !types[s[i]].scoped
  }

  lemma {:induction false} UnscopedAppend(types: seq<ElementType>, a: seq<nat>, b: seq<nat>)
    requires forall i :: 0 <= i < |a + b| ==> (a + b)[i] < |types|
    ensures forall i :: 0 <= i < |a| ==> a[i] < |types|
    ensures forall i :: 0 <= i < |b| ==> b[i] < |types|
    ensures Unscoped(types, a + b) == Unscoped(types, a) + Unscoped(types, b)
    decreases |b|
  {
    forall i | 0 <= i < |a| ensures a[i] < |types| { assert (a + b)[i] == a[i]; }
    forall i | 0 <= i < |b| ensures b[i] < |types| { assert (a + b)[|a| + i] == b[i]; }
    if b == [] {
      assert a + b == a;
    } else {
      var m := |b| - 1;
      assert (a + b)[..|a + b| - 1] == a + b[..m];
      UnscopedAppend(types, a, b[..m]);
    }
  }

  /** Something is lost exactly if something is scoped. */
  lemma {:induction false} UnscopedAll(types: seq<ElementType>, s: seq<nat>)
    requires forall i :: 0 <= i < |s| ==> s[i] < |types|
    ensures |Unscoped(types, s)| <= |s|
    ensures |Unscoped(types, s)| == |s| <==> NoneScoped(types, s)
    ensures NoneScoped(types, s) ==> Unscoped(types, s) == s
  {
    if s != [] {
      hide NoneScoped;
      var m := |s| - 1;
      UnscopedAll(types, s[..m]);
      NoneScopedStep(types, s, m);
      assert s == s[..m] + [s[m]];
    } else {
      assert NoneScoped(types, s);
    }
  }

  lemma NoneScopedStep(types: seq<ElementType>, s: seq<nat>, m: nat)
    requires |s| == m + 1 && forall i :: 0 <= i < |s| ==> s[i] < |types|
    ensures NoneScoped(types, s) <==> NoneScoped(types, s[..m]) && !types[s[m]].scoped
  {
    if NoneScoped(types, s[..m]) && !types[s[m]].scoped {
      forall i | 0 <= i < |s| ensures !types[s[i]].scoped {
        if i < m { assert s[..m][i] == s[i]; }
      }
    }
  }

  /** The chain is `added + rest`: the types added since the cookie, and what is left of the types
      before.  A scan that stops too early must stop before unscoped types only, and one that goes
      on too long must meet unscoped types only. */
  ghost predicate LeavesRight(types: seq<ElementType>, added: seq<nat>, rest: seq<nat>, cookie: int)
    requires forall i :: 0 <= i < |added| ==> added[i] < |types|
    requires forall i :: 0 <= i < |rest| ==> rest[i] < |types|
  {
    var k := CookieAt(added + rest, cookie);
    if k <= |added| then NoneScoped(types, added[k..]) else NoneScoped(types, rest[..k - |added|])
  }

  /** Leaving a scope removes the scoped types added since its cookie and nothing else, if and only
      if the cookie is where it should be or the types in between are not scoped. */
  lemma ScopeExactly(t0: seq<ElementType>, added: seq<nat>, rest: seq<nat>, types: seq<ElementType>, chain: seq<nat>,
                     cookie: int)
    requires ScopeLeft(t0, added + rest, types, chain, cookie)
    ensures forall i :: 0 <= i < |added| ==> added[i] < |t0|
    ensures forall i :: 0 <= i < |rest| ==> rest[i] < |t0|
    ensures chain == Unscoped(t0, added) + rest <==> LeavesRight(t0, added, rest, cookie)
  {
    hide *;
    var all, k := added + rest, CookieAt(added + rest, cookie);
    LeftChain(t0, all, types, chain, cookie);
    UnscopedAppend(t0, added, rest);
    RightIs(t0, added, rest, cookie);
    if k <= |added| {
      StopsEarly(t0, added, rest, k);
    } else {
      StopsLate(t0, added, rest, k);
    }
  }

  lemma LeftChain(t0: seq<ElementType>, all: seq<nat>, types: seq<ElementType>, chain: seq<nat>, cookie: int)
    requires ScopeLeft(t0, all, types, chain, cookie)
    ensures forall i :: 0 <= i < |all| ==> all[i] < |t0|
    ensures var k := CookieAt(all, cookie); chain == Unscoped(t0, all[..k]) + all[k..]
  {
  }

  lemma RightIs(types: seq<ElementType>, added: seq<nat>, rest: seq<nat>, cookie: int)
    requires forall i :: 0 <= i < |added| ==> added[i] < |types|
    requires forall i :: 0 <= i < |rest| ==> rest[i] < |types|
    ensures var k := CookieAt(added + rest, cookie);
            LeavesRight(types, added, rest, cookie) <==>
              if k <= |added| then NoneScoped(types, added[k..]) else NoneScoped(types, rest[..k - |added|])
  {
    hide CookieAt, NoneScoped;
  }

  lemma StopsEarly(t0: seq<ElementType>, added: seq<nat>, rest: seq<nat>, k: nat)
    requires k <= |added| && forall i :: 0 <= i < |added + rest| ==> (added + rest)[i] < |t0|
    requires forall i :: 0 <= i < |added| ==> added[i] < |t0|
    ensures Unscoped(t0, (added + rest)[..k]) + (added + rest)[k..] == Unscoped(t0, added) + rest <==>
      NoneScoped(t0, added[k..])
  {
    hide Unscoped, NoneScoped;
    var left, stays := added[..k], added[k..];
    assert (added + rest)[..k] == left && (added + rest)[k..] == stays + rest && added == left + stays;
    UnscopedAppend(t0, left, stays);
    UnscopedAll(t0, stays);
    SameStart(Unscoped(t0, left), stays, Unscoped(t0, stays), rest);
  }

  lemma StopsLate(t0: seq<ElementType>, added: seq<nat>, rest: seq<nat>, k: nat)
    requires |added| <= k <= |added + rest| && forall i :: 0 <= i < |added + rest| ==> (added + rest)[i] < |t0|
    requires forall i :: 0 <= i < |added| ==> added[i] < |t0|
    requires forall i :: 0 <= i < |rest| ==> rest[i] < |t0|
    ensures Unscoped(t0, (added + rest)[..k]) + (added + rest)[k..] == Unscoped(t0, added) + rest <==>
      NoneScoped(t0, rest[..k - |added|])
  {
    hide Unscoped, NoneScoped;
    var gone, stays := rest[..k - |added|], rest[k - |added|..];
    assert (added + rest)[..k] == added + gone && (added + rest)[k..] == stays && rest == gone + stays;
    UnscopedAppend(t0, added, gone);
    UnscopedAll(t0, gone);
    SameStart(Unscoped(t0, added), Unscoped(t0, gone), gone, stays);
  }

  lemma SameStart(a: seq<nat>, u: seq<nat>, v: seq<nat>, b: seq<nat>)
    ensures a + (u + b) == (a + v) + b <==> u == v
    ensures (a + u) + b == a + (v + b) <==> u == v
  {
    if a + (u + b) == (a + v) + b {
      assert (a + (u + b))[|a|..|a| + |u|] == u && ((a + v) + b)[|a|..|a| + |v|] == v;
    }
    assert (a + u) + b == a + (u + b) && (a + v) + b == a + (v + b);
  }

  /** The cookie's type still in place: of the types added since, the scoped ones go, and the chain
      from before is untouched. */
  lemma ScopeOfCookie(t0: seq<ElementType>, added: seq<nat>, outer: seq<nat>, types: seq<ElementType>, chain: seq<nat>)
    requires |t0| <= ET_NULL && Sorting.Distinct(added + outer)
    requires ScopeLeft(t0, added + outer, types, chain, First(outer, ET_NULL))
    ensures forall i :: 0 <= i < |added| ==> added[i] < |t0|
    ensures chain == Unscoped(t0, added) + outer
  {
    var all, cookie := added + outer, First(outer, ET_NULL);
    forall i | 0 <= i < |added| ensures added[i] < |t0| && all[i] != cookie {
      assert all[i] == added[i];
      if outer != [] {
        assert all[|added|] == outer[0];
        DistinctApart(all, i, |added|);
      }
    }
    CookieUnique(all, cookie, |added|);
    ScopeExactly(t0, added, outer, types, chain, cookie);
  }

  /** A cookie that is nowhere in the chain: scoped types from before it are lost too. */
  lemma DeadCookieLoses(t0: seq<ElementType>, rest: seq<nat>, types: seq<ElementType>, chain: seq<nat>, cookie: int)
    requires ScopeLeft(t0, rest, types, chain, cookie) && cookie !in rest
    ensures chain == Unscoped(t0, rest)
    ensures chain == rest <==> NoneScoped(t0, rest)
  {
    assert CookieAt(rest, cookie) == |rest|;
    assert rest[..|rest|] == rest && rest[|rest|..] == [];
    UnscopedAll(t0, rest);
  }

  lemma FirstOf(s: seq<nat>, nil: int)
    requires s != []
    ensures First(s, nil) == s[0]
  {
  }

  lemma FirstLive(lexer: Lexer)
    requires lexer.Valid() && lexer.chain != []
    ensures lexer.chain[0] < |lexer.types| && forall i :: 0 < i < |lexer.chain| ==> lexer.chain[i] != lexer.chain[0]
  {
    hide MapOk;
    ChainFacts(lexer.types, lexer.last, lexer.free, lexer.chain, lexer.unused);
    forall i | 0 < i < |lexer.chain| ensures lexer.chain[i] != lexer.chain[0] {
      DistinctApart(lexer.chain, 0, i);
    }
  }

  lemma FirstRemoved(s: seq<nat>, i: nat)
    requires i < |s| && s[i] == s[0] && forall k :: 0 < k < |s| ==> s[k] != s[0]
    ensures Without(s, i) == s[1..]
  {
  }

  /** Leaving a scope whose cookie is the newest type changes nothing. */
  lemma NothingLeft(t0: seq<ElementType>, chain0: seq<nat>, types: seq<ElementType>, chain: seq<nat>, cookie: int)
    requires chain0 != [] && chain0[0] == cookie && ScopeLeft(t0, chain0, types, chain, cookie)
    ensures chain == chain0 && forall i :: 0 <= i < |chain| ==>
        chain[i] < |types| && types[chain[i]].scoped == t0[chain[i]].scoped
  {
    assert CookieAt(chain0, cookie) == 0;
    assert chain0[..0] == [] && chain0[0..] == chain0;
    forall i | 0 <= i < |chain| ensures chain[i] < |types| && types[chain[i]].scoped == t0[chain[i]].scoped {
      assert SameType(t0, types, chain[i]);
    }
  }

  // ----- Any run between taking a cookie and using it

  datatype Call = Add(name: string, factory: nat, thunk: int, scoped: bool) | Remove(id: int)

  /** The table in a run: the live types are those added since the cookie and what is left of those
      before. */
  datatype Table = Table(types: seq<ElementType>, added: seq<nat>, rest: seq<nat>, unused: seq<nat>)

  function Drop(s: seq<nat>, id: nat): seq<nat> {
    if s == [] then [] else if s[0] == id then s[1..] else [s[0]] + Drop(s[1..], id)
  }

  function Apply(t: Table, call: Call): Table {
    match call
    case Add(name, factory, thunk, scoped) =>
      var tid := FreeId(t.types, t.unused);
      var entry := ElementType(factory, thunk, name, First(t.added + t.rest, ET_NULL), scoped);
      Table(Put(t.types, tid, entry), [tid] + t.added, t.rest, Rest(t.unused))
    case Remove(id) =>
      if id < 0 || id !in t.added + t.rest then t
      else if id in t.added then t.(added := Drop(t.added, id), unused := [id] + t.unused)
      else t.(rest := Drop(t.rest, id), unused := [id] + t.unused)
  }

  function Run(t: Table, calls: seq<Call>): Table {
    if calls == [] then t else Apply(Run(t, calls[..|calls| - 1]), calls[|calls| - 1])
  }

  /** The lexer holds the table `t`, up to the links. */
  ghost predicate Holds(lexer: Lexer, t: Table)
    reads lexer
  {
    lexer.chain == t.added + t.rest && lexer.unused == t.unused && KeepsLive(t.types, lexer.types, lexer.chain)
  }

  lemma {:induction false} DropIs(s: seq<nat>, i: nat)
    requires Sorting.Distinct(s) && i < |s|
    ensures Drop(s, s[i]) == Without(s, i)
    decreases |s|
  {
    if i > 0 {
      DistinctTail(s);
      DropIs(s[1..], i - 1);
      assert [s[0]] + Without(s[1..], i - 1) == Without(s, i);
    }
  }

  lemma {:induction false} DropAppend(a: seq<nat>, b: seq<nat>, id: nat)
    ensures Drop(a + b, id) == if id in a then Drop(a, id) + b else a + Drop(b, id)
    decreases |a|
  {
    if a == [] {
      assert a + b == b && [] + Drop(b, id) == Drop(b, id);
    } else {
      assert (a + b)[1..] == a[1..] + b;
      DropAppend(a[1..], b, id);
      if a[0] != id {
        assert id in a <==> id in a[1..];
        assert [a[0]] + (Drop(a[1..], id) + b) == ([a[0]] + Drop(a[1..], id)) + b;
        assert [a[0]] + (a[1..] + Drop(b, id)) == a + Drop(b, id);
      }
    }
  }

  lemma RunStep(t: Table, calls: seq<Call>, k: nat)
    requires k < |calls|
    ensures Run(t, calls[..k + 1]) == Apply(Run(t, calls[..k]), calls[k])
  {
    assert calls[..k + 1][..k] == calls[..k];
  }

  lemma RunEnds(t: Table, calls: seq<Call>)
    ensures Run(t, calls[..0]) == t && calls[..|calls|] == calls
  {
  }

  /** Adding keeps what the table says of the types that were live. */
  lemma AddHolds(t: Table, call: Call, types: seq<ElementType>, types': seq<ElementType>, last: int)
    requires call.Add? && last == First(t.added + t.rest, ET_NULL) && KeepsLive(t.types, types, t.added + t.rest)
    requires FreeId(types, t.unused) <= |types| && FreeId(types, t.unused) !in t.added + t.rest
    requires types' == Put(types, FreeId(types, t.unused),
                           ElementType(call.factory, call.thunk, call.name, last, call.scoped))
    ensures var now := Apply(t, call);
            now.added + now.rest == [FreeId(types, t.unused)] + (t.added + t.rest)
            && now.unused == Rest(t.unused) && KeepsLive(now.types, types', now.added + now.rest)
  {
    var chain, tid, now := t.added + t.rest, FreeId(types, t.unused), Apply(t, call);
    assert now.added + now.rest == [tid] + chain;
    forall i | 0 <= i < |[tid] + chain|
      ensures ([tid] + chain)[i] < |now.types| && SameType(now.types, types', ([tid] + chain)[i])
    {
      if i > 0 {
        assert ([tid] + chain)[i] == chain[i - 1];
        assert SameType(t.types, types, chain[i - 1]);
      }
    }
  }

  lemma RemoveHolds(t: Table, i: nat, types: seq<ElementType>, types': seq<ElementType>)
    requires Sorting.Distinct(t.added + t.rest) && i < |t.added + t.rest|
    requires KeepsLive(t.types, types, t.added + t.rest) && KeepsLive(types, types', Without(t.added + t.rest, i))
    ensures var id := (t.added + t.rest)[i]; var now := Apply(t, Remove(id));
            now.added + now.rest == Without(t.added + t.rest, i)
            && now.unused == [id] + t.unused && KeepsLive(now.types, types', now.added + now.rest)
  {
    hide KeepsLive, Sorting.Distinct, Without, Drop;
    DropIs(t.added + t.rest, i);
    DropAppend(t.added, t.rest, (t.added + t.rest)[i]);
    LiveTrans(t.types, types, types', t.added + t.rest, Without(t.added + t.rest, i), i);
  }

  lemma NotLive(t: Table, id: int)
    requires id < 0 || id !in t.added + t.rest
    ensures Apply(t, Remove(id)) == t
  {
  }

  lemma LiveDistinct(lexer: Lexer)
    requires lexer.Valid()
    ensures Sorting.Distinct(lexer.chain) && lexer.last == First(lexer.chain, ET_NULL) && |lexer.types| <= ET_NULL
    ensures forall i :: 0 <= i < |lexer.chain| ==> lexer.chain[i] < |lexer.types|
    ensures FreeId(lexer.types, lexer.unused) <= |lexer.types|
  {
    hide MapOk;
    ChainFacts(lexer.types, lexer.last, lexer.free, lexer.chain, lexer.unused);
  }

  lemma Hold(lexer: Lexer, t: Table)
    requires lexer.chain == t.added + t.rest && lexer.unused == t.unused
    requires KeepsLive(t.types, lexer.types, lexer.chain)
    ensures Holds(lexer, t)
  {
  }

  lemma Held(lexer: Lexer, t: Table)
    requires Holds(lexer, t)
    ensures lexer.chain == t.added + t.rest && lexer.unused == t.unused && |t.types| == |lexer.types|
    ensures KeepsLive(t.types, lexer.types, lexer.chain)
  {
  }

  lemma PutSize(types: seq<ElementType>, tid: nat, t: ElementType)
    ensures |Put(types, tid, t)| <= |types| + 1
  {
  }

  /** One call does to the lexer what it does to the table. */
  method Do(lexer: Lexer, call: Call, ghost t: Table)
    requires lexer.Valid() && |lexer.types| < ET_NULL && (call.Add? ==> call.factory != 0)
    requires Holds(lexer, t)
    modifies lexer
    ensures lexer.Valid() && |lexer.types| <= |old(lexer.types)| + 1
    ensures Holds(lexer, Apply(t, call))
  {
    hide *;
    LiveDistinct(lexer);
    Held(lexer, t);
    ghost var t0, last0 := lexer.types, lexer.last;
    match call
    case Add(name, factory, thunk, scoped) =>
      var tid := lexer.AddElementType(name, factory, thunk, scoped);
      PutSize(t0, tid, ElementType(factory, thunk, name, last0, scoped));
      AddHolds(t, call, t0, lexer.types, last0);
      Hold(lexer, Apply(t, call));
    case Remove(id) =>
      ghost var chain := lexer.chain;
      var r := lexer.RemoveElementType(id, -2);
      if r == 0 {
        ghost var i :| 0 <= i < |chain| && chain[i] == id && lexer.chain == Without(chain, i);
        RemoveHolds(t, i, t0, lexer.types);
        Hold(lexer, Apply(t, call));
      } else {
        NotLive(t, id);
        Hold(lexer, t);
      }
  }

  /** The cookie's place at the head of the types from before. */
  lemma KeepsCookie(t: Table, call: Call)
    requires call != Remove(First(t.rest, ET_NULL))
    ensures First(Apply(t, call).rest, ET_NULL) == First(t.rest, ET_NULL)
  {
  }

  /** Nothing in a run but removing the cookie's own type moves the cookie. */
  lemma {:induction false} RunKeepsCookie(t: Table, calls: seq<Call>)
    requires Remove(First(t.rest, ET_NULL)) !in calls
    ensures First(Run(t, calls).rest, ET_NULL) == First(t.rest, ET_NULL)
  {
    hide Apply;
    if calls != [] {
      var m := |calls| - 1;
      RunKeepsCookie(t, calls[..m]);
      KeepsCookie(Run(t, calls[..m]), calls[m]);
    }
  }

  /** Leaving a scope from a table held up to the links. */
  lemma LeftHeld(now: Table, t0: seq<ElementType>, types: seq<ElementType>, chain: seq<nat>, cookie: int)
    requires KeepsLive(now.types, t0, now.added + now.rest)
    requires ScopeLeft(t0, now.added + now.rest, types, chain, cookie)
    ensures ScopeLeft(now.types, now.added + now.rest, types, chain, cookie)
  {
    var all := now.added + now.rest;
    var k := CookieAt(all, cookie);
    hide CookieAt;
    UnscopedSame(now.types, t0, all, k);
    forall i | 0 <= i < |chain| ensures chain[i] < |now.types| && SameType(now.types, types, chain[i]) {
      UnscopedFrom(t0, all, k, i);
      assert SameType(t0, types, chain[i]);
      var j :| 0 <= j < |all| && all[j] == chain[i];
      assert SameType(now.types, t0, all[j]);
    }
  }

  lemma {:induction false} UnscopedSame(types: seq<ElementType>, types': seq<ElementType>, s: seq<nat>, k: nat)
    requires KeepsLive(types, types', s) && k <= |s|
    ensures Unscoped(types, s[..k]) == Unscoped(types', s[..k])
  {
    if k > 0 {
      UnscopedSame(types, types', s, k - 1);
      UnscopedStep(types, s, k - 1);
      UnscopedStep(types', s, k - 1);
      LiveAt(types, types', s, k - 1);
    }
  }

  /** Nothing is left that was not there. */
  lemma {:induction false} UnscopedFrom(types: seq<ElementType>, s: seq<nat>, k: nat, i: nat)
    requires k <= |s| && forall i :: 0 <= i < |s| ==> s[i] < |types|
    requires i < |Unscoped(types, s[..k]) + s[k..]|
    ensures (Unscoped(types, s[..k]) + s[k..])[i] in s
    decreases k
  {
    if k > 0 && i < |Unscoped(types, s[..k])| {
      UnscopedStep(types, s, k - 1);
      if i < |Unscoped(types, s[..k - 1])| {
        UnscopedFrom(types, s, k - 1, i);
      }
    }
  }

  /** A scope with any adds and removes inside it.  What is left is known from the table before and
      the calls.  The scope is left right, the scoped types added since the cookie gone and
      everything else kept in order, if and only if `LeavesRight` holds of the table just before;
      it does if no call removes the cookie's type. */
  method ScopeRun(lexer: Lexer, calls: seq<Call>) returns (cookie: int)
    requires lexer.Valid() && |lexer.types| + |calls| <= ET_NULL
    requires forall k :: 0 <= k < |calls| && calls[k].Add? ==> calls[k].factory != 0
    modifies lexer
    ensures lexer.Valid() && cookie == First(old(lexer.chain), ET_NULL)
    ensures var now := Run(Table(old(lexer.types), [], old(lexer.chain), old(lexer.unused)), calls);
            && ScopeLeft(now.types, now.added + now.rest, lexer.types, lexer.chain, cookie)
            && (forall i :: 0 <= i < |now.added| ==> now.added[i] < |now.types|)
            && (forall i :: 0 <= i < |now.rest| ==> now.rest[i] < |now.types|)
            && (lexer.chain == Unscoped(now.types, now.added) + now.rest <==>
                LeavesRight(now.types, now.added, now.rest, cookie))
            && (Remove(cookie) !in calls ==> lexer.chain == Unscoped(now.types, now.added) + now.rest)
  {
    hide *;
    ghost var start := Table(lexer.types, [], lexer.chain, lexer.unused);
    LiveDistinct(lexer);
    LiveRefl(lexer.types, lexer.chain);
    assert [] + lexer.chain == lexer.chain;
    Hold(lexer, start);
    cookie := lexer.LexicalScopingIn();
    RunEnds(start, calls);
    for k := 0 to |calls|
      invariant lexer.Valid() && |lexer.types| + |calls| - k <= ET_NULL
      invariant Holds(lexer, Run(start, calls[..k]))
    {
      RunStep(start, calls, k);
      Do(lexer, calls[k], Run(start, calls[..k]));
    }
    ghost var now, t0 := Run(start, calls), lexer.types;
    Held(lexer, now);
    LiveDistinct(lexer);
    lexer.LexicalScopingOut(cookie);
    LeftHeld(now, t0, lexer.types, lexer.chain, cookie);
    ScopeExactly(now.types, now.added, now.rest, lexer.types, lexer.chain, cookie);
    if Remove(cookie) !in calls {
      RunKeepsCookie(start, calls);
      ScopeOfCookie(now.types, now.added, now.rest, lexer.types, lexer.chain);
    }
  }

  /** A cookie whose type was removed, with its id free: every scoped type goes, older ones too. */
  method DeadCookie(lexer: Lexer) returns (cookie: int, ghost t0: seq<ElementType>)
    requires lexer.Valid() && lexer.chain != []
    modifies lexer
    ensures lexer.Valid() && cookie == old(lexer.chain)[0]
    ensures forall i :: 0 < i < |old(lexer.chain)| ==> SurvivesAs(old(lexer.types), t0, old(lexer.chain)[i])
    ensures forall i :: 0 <= i < |old(lexer.chain)[1..]| ==> old(lexer.chain)[1..][i] < |t0|
    ensures lexer.chain == Unscoped(t0, old(lexer.chain)[1..])
    ensures lexer.chain == old(lexer.chain)[1..] <==> NoneScoped(t0, old(lexer.chain)[1..])
  {
    hide *;
    ghost var outer, before := lexer.chain, lexer.types;
    cookie := lexer.LexicalScopingIn();
    FirstOf(outer, ET_NULL);
    FirstLive(lexer);
    var r := lexer.RemoveElementType(cookie, -2);
    assert lexer.chain == outer[1..] by {
      var i :| 0 <= i < |outer| && outer[i] == cookie && lexer.chain == Without(outer, i);
      FirstRemoved(outer, i);
    }
    t0 := lexer.types;
    Survivors(before, t0, outer);
    lexer.LexicalScopingOut(cookie);
    DeadCookieLoses(t0, outer[1..], lexer.types, lexer.chain, cookie);
  }

  ghost predicate SurvivesAs(types: seq<ElementType>, types': seq<ElementType>, id: nat) {
    id < |types| && id < |types'| && types'[id].scoped == types[id].scoped
  }

  lemma Survivors(types: seq<ElementType>, types': seq<ElementType>, outer: seq<nat>)
    requires outer != [] && KeepsLive(types, types', outer[1..])
    ensures forall i :: 0 < i < |outer| ==> SurvivesAs(types, types', outer[i])
    ensures forall i :: 0 <= i < |outer[1..]| ==> outer[1..][i] < |types'|
  {
    forall i | 0 < i < |outer| ensures SurvivesAs(types, types', outer[i]) {
      assert outer[1..][i - 1] == outer[i];
      assert SameType(types, types', outer[i]);
    }
  }
}
