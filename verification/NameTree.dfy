/** `NameInfo`: the databases of one type form a tree of scopes.  A database's parent is the
    innermost other database whose context contains it; `namedb` walks down the tree, and
    installing a database adopts the siblings that belong below it.

    Pointers to databases are positions in the arena `dbs`, in order of installation; -1 is null. */
module NameTree {
  import opened Lists
  import Sorting
  import Strings

  datatype NameDB = NameDB(context: string, parent: int, sibling: int, child: int, values: map<string, int>)

  // ----- Scoping

  /** `a` is a scope around `b`: a shorter context, or the same context installed earlier. */
  ghost predicate Covers(dbs: seq<NameDB>, a: int, b: int) {
    && 0 <= a < |dbs| && 0 <= b < |dbs|
    && (dbs[a].context < dbs[b].context || (dbs[a].context == dbs[b].context && a < b))
  }

  lemma CoversTrans(dbs: seq<NameDB>, a: int, b: int, c: int)
    requires Covers(dbs, a, b) && Covers(dbs, b, c)
    ensures Covers(dbs, a, c)
  {
  }

  lemma PrefixesNested(p: string, q: string, s: string)
    requires p <= s && q <= s
    ensures p <= q || q <= p
  {
    if |p| <= |q| {
      assert p == s[..|p|] && q == s[..|q|];
      assert p == q[..|p|];
    } else {
      assert p == s[..|p|] && q == s[..|q|];
      assert q == p[..|q|];
    }
  }

  /** Database `a` applies to context `prefix`. */
  ghost predicate Applies(dbs: seq<NameDB>, a: int, prefix: string) {
    0 <= a < |dbs| && dbs[a].context <= prefix
  }

  lemma AppliesLinear(dbs: seq<NameDB>, a: int, b: int, prefix: string)
    requires Applies(dbs, a, prefix) && Applies(dbs, b, prefix)
    ensures a == b || Covers(dbs, a, b) || Covers(dbs, b, a)
  {
    PrefixesNested(dbs[a].context, dbs[b].context, prefix);
  }

  /** The innermost database that applies, the newest among equals; -1 if none applies. */
  ghost predicate Innermost(dbs: seq<NameDB>, c: int, prefix: string) {
    && -1 <= c < |dbs|
    && (c >= 0 ==> Applies(dbs, c, prefix))
    && (forall a :: Applies(dbs, a, prefix) ==> c >= 0 && (a == c || Covers(dbs, a, c)))
  }

  // ----- The tree

  /** The parent is the innermost scope around the database. */
  ghost predicate ParentOk(dbs: seq<NameDB>, b: int)
    requires 0 <= b < |dbs|
  {
    var p := dbs[b].parent;
    && -1 <= p < |dbs|
    && (p >= 0 ==> Covers(dbs, p, b))
    && (forall a :: Covers(dbs, a, b) ==> p >= 0 && (a == p || Covers(dbs, a, p)))
  }

  /** The sibling links from `head` spell out `list`. */
  ghost predicate Linked(dbs: seq<NameDB>, head: int, list: seq<nat>) {
    && head == First(list, -1)
    && forall i :: 0 <= i < |list| ==> list[i] < |dbs| && dbs[list[i]].sibling == Next(list, i, -1)
  }

  function Head(dbs: seq<NameDB>, root: int, p: int): int
    requires -1 <= p < |dbs|
  {
    if p < 0 then root else dbs[p].child
  }

  /** The child list of `p` holds exactly the databases whose parent is `p`, and the sibling
      links spell it out. */
  ghost predicate KidsOk(dbs: seq<NameDB>, root: int, kids: map<int, seq<nat>>, p: int)
    requires -1 <= p < |dbs|
  {
    && p in kids
    && Linked(dbs, Head(dbs, root, p), kids[p])
    && Sorting.Distinct(kids[p])
    && (forall b: nat :: b in kids[p] <==> b < |dbs| && dbs[b].parent == p)
  }

  /** `kids[-1]` are the top databases. */
  ghost predicate TreeOk(dbs: seq<NameDB>, root: int, kids: map<int, seq<nat>>) {
    && (forall b :: 0 <= b < |dbs| ==> ParentOk(dbs, b))
    && (forall p :: -1 <= p < |dbs| ==> KidsOk(dbs, root, kids, p))
  }

  // ----- Walking down

  /** If `c` applies but none of its children does, `c` is the innermost. */
  lemma {:induction false} NoneBelow(dbs: seq<NameDB>, root: int, kids: map<int, seq<nat>>, c: int, prefix: string,
      a: int)
    requires TreeOk(dbs, root, kids) && -1 <= c < |dbs| && (c >= 0 ==> Applies(dbs, c, prefix))
    requires c in kids && forall b :: b in kids[c] ==> !Applies(dbs, b, prefix)
    requires Applies(dbs, a, prefix)
    ensures c >= 0 && (a == c || Covers(dbs, a, c))
    decreases if 0 <= a < |dbs| then |dbs[a].context| else 0, a
  {
    assert ParentOk(dbs, a) && KidsOk(dbs, root, kids, c);
    var p := dbs[a].parent;
    if p >= 0 {
      assert Applies(dbs, p, prefix);
      NoneBelow(dbs, root, kids, c, prefix, p);
      AppliesLinear(dbs, a, c, prefix);
    } else if c >= 0 {
      AppliesLinear(dbs, a, c, prefix);
    }
  }

  lemma InnermostFound(dbs: seq<NameDB>, root: int, kids: map<int, seq<nat>>, c: int, prefix: string)
    requires TreeOk(dbs, root, kids) && -1 <= c < |dbs| && (c >= 0 ==> Applies(dbs, c, prefix))
    requires c in kids && forall b :: b in kids[c] ==> !Applies(dbs, b, prefix)
    ensures Innermost(dbs, c, prefix)
  {
    forall a | Applies(dbs, a, prefix) ensures c >= 0 && (a == c || Covers(dbs, a, c)) {
      NoneBelow(dbs, root, kids, c, prefix, a);
    }
  }

  /** A position of the walk: `db` is the child at position `j` of `c`, and none before it applies. */
  ghost predicate WalkAt(dbs: seq<NameDB>, kids: map<int, seq<nat>>, c: int, db: int, j: nat, prefix: string) {
    && -1 <= c < |dbs| && (c >= 0 ==> Applies(dbs, c, prefix))
    && c in kids && j <= |kids[c]| && db == (if j < |kids[c]| then kids[c][j] else -1)
    && (forall i :: 0 <= i < j ==> !Applies(dbs, kids[c][i], prefix))
  }

  lemma WalkDown(dbs: seq<NameDB>, root: int, kids: map<int, seq<nat>>, c: int, db: int, j: nat, prefix: string)
    requires TreeOk(dbs, root, kids) && WalkAt(dbs, kids, c, db, j, prefix) && db >= 0
    ensures db < |dbs| && Covers(dbs, c, db) == (c >= 0)
    ensures Applies(dbs, db, prefix) ==> WalkAt(dbs, kids, db, dbs[db].child, 0, prefix)
    ensures !Applies(dbs, db, prefix) ==> WalkAt(dbs, kids, c, dbs[db].sibling, j + 1, prefix)
  {
    assert KidsOk(dbs, root, kids, c);
    assert db in kids[c];
    assert ParentOk(dbs, db) && KidsOk(dbs, root, kids, db);
  }

  /** What is left to walk. */
  ghost function Depth(dbs: seq<NameDB>, c: int, prefix: string): int {
    if 0 <= c < |dbs| then |prefix| - |dbs[c].context| else |prefix| + 1
  }

  // ----- Walking up

  /** The databases met by following parents from `c`. */
  ghost function Chain(dbs: seq<NameDB>, c: int): seq<nat>
    requires -1 <= c < |dbs| && forall b :: 0 <= b < |dbs| ==> ParentOk(dbs, b)
    decreases if c >= 0 then |dbs[c].context| + 1 else 0, c
  {
    if c < 0 then []
    else
      assert ParentOk(dbs, c);
      [c] + Chain(dbs, dbs[c].parent)
  }

  /** The chain lists exactly `c` and the scopes around it, from the inside out. */
  lemma {:induction false} ChainScopes(dbs: seq<NameDB>, c: int)
    requires -1 <= c < |dbs| && forall b :: 0 <= b < |dbs| ==> ParentOk(dbs, b)
    ensures forall a: nat :: a in Chain(dbs, c) <==> a == c || Covers(dbs, a, c)
    ensures forall i, j :: 0 <= i < j < |Chain(dbs, c)| ==> Covers(dbs, Chain(dbs, c)[j], Chain(dbs, c)[i])
    decreases if c >= 0 then |dbs[c].context| + 1 else 0, c
  {
    if c >= 0 {
      assert ParentOk(dbs, c);
      var p := dbs[c].parent;
      var up := Chain(dbs, p);
      ChainScopes(dbs, p);
      forall a: nat ensures a in up <==> Covers(dbs, a, c) {
        if a in up && a != p { CoversTrans(dbs, a, p, c); }
      }
    }
  }

  /** After `namedb`, following parents lists exactly the databases that apply to the context:
      longer contexts first, newer databases first among equal contexts. */
  lemma ChainOfInnermost(dbs: seq<NameDB>, root: int, kids: map<int, seq<nat>>, c: int, prefix: string)
    requires TreeOk(dbs, root, kids) && Innermost(dbs, c, prefix)
    ensures forall a: nat :: a in Chain(dbs, c) <==> Applies(dbs, a, prefix)
    ensures forall i, j :: 0 <= i < j < |Chain(dbs, c)| ==> Covers(dbs, Chain(dbs, c)[j], Chain(dbs, c)[i])
  {
    ChainScopes(dbs, c);
    forall a: nat ensures a in Chain(dbs, c) <==> Applies(dbs, a, prefix) {
      if Covers(dbs, a, c) { CoversApplies(dbs, a, c, prefix); }
    }
  }

  /** `a` is the innermost applying database that binds `name`. */
  ghost predicate Binds(dbs: seq<NameDB>, prefix: string, name: string, a: int) {
    && Applies(dbs, a, prefix) && name in dbs[a].values
    && forall b :: Applies(dbs, b, prefix) && name in dbs[b].values ==> b == a || Covers(dbs, b, a)
  }

  ghost predicate Unbound(dbs: seq<NameDB>, prefix: string, name: string) {
    forall b :: Applies(dbs, b, prefix) ==> name !in dbs[b].values
  }

  /** What a query from context `prefix` answers. */
  ghost predicate Answers(dbs: seq<NameDB>, prefix: string, name: string, found: bool, value: int) {
    if found then exists a :: Binds(dbs, prefix, name, a) && dbs[a].values[name] == value
    else Unbound(dbs, prefix, name)
  }

  /** The walk of `query` at `db`: what applies and binds the name is `db` or around it. */
  ghost predicate QueryAt(dbs: seq<NameDB>, prefix: string, name: string, db: int) {
    && -1 <= db < |dbs| && (db >= 0 ==> Applies(dbs, db, prefix))
    && forall b :: Applies(dbs, b, prefix) && name in dbs[b].values ==> db >= 0 && (b == db || Covers(dbs, b, db))
  }

  lemma QueryUp(dbs: seq<NameDB>, root: int, kids: map<int, seq<nat>>, prefix: string, name: string, db: int)
    requires TreeOk(dbs, root, kids) && QueryAt(dbs, prefix, name, db) && db >= 0 && name !in dbs[db].values
    ensures QueryAt(dbs, prefix, name, dbs[db].parent)
    ensures dbs[db].parent >= 0 ==> Covers(dbs, dbs[db].parent, db)
  {
    assert ParentOk(dbs, db);
    var p := dbs[db].parent;
    if p >= 0 { CoversApplies(dbs, p, db, prefix); }
  }

  // ----- Linked lists

  lemma LinkedFrame(dbs: seq<NameDB>, dbs': seq<NameDB>, head: int, list: seq<nat>)
    requires Linked(dbs, head, list) && |dbs| <= |dbs'|
    requires forall i :: 0 <= i < |list| && list[i] < |dbs| ==> dbs'[list[i]].sibling == dbs[list[i]].sibling
    ensures Linked(dbs', head, list)
  {
  }

  /** Unlinking the database after `pre` by redirecting the last link of `pre`. */
  lemma LinkedRemove(dbs: seq<NameDB>, dbs': seq<NameDB>, head: int, pre: seq<nat>, cur: nat, post: seq<nat>)
    requires pre != [] && Linked(dbs, head, pre + [cur] + post) && Sorting.Distinct(pre + [cur] + post)
    requires |dbs| == |dbs'| && pre[|pre| - 1] < |dbs| && cur < |dbs|
    requires dbs'[pre[|pre| - 1]].sibling == dbs[cur].sibling
    requires forall b :: 0 <= b < |dbs| && b != pre[|pre| - 1] && b != cur ==> dbs'[b].sibling == dbs[b].sibling
    ensures Linked(dbs', head, pre + post) && dbs[cur].sibling == First(post, -1)
  {
    hide Sorting.Distinct;
    var all, less, m := pre + [cur] + post, pre + post, |pre|;
    assert all[m] == cur && all[m - 1] == pre[m - 1] == less[m - 1];
    assert dbs[all[m]].sibling == Next(all, m, -1);
    forall i | 0 <= i < |less| ensures less[i] < |dbs'| && dbs'[less[i]].sibling == Next(less, i, -1) {
      if i != m - 1 {
        RemovedAt(pre, cur, post, i);
        var j := if i < m then i else i + 1;
        DistinctApart(all, j, m - 1);
        DistinctApart(all, j, m);
      }
    }
  }

  lemma RemovedAt(pre: seq<nat>, cur: nat, post: seq<nat>, i: nat)
    requires i < |pre + post| && i != |pre| - 1
    ensures var all, j := pre + [cur] + post, if i < |pre| then i else i + 1;
            (pre + post)[i] == all[j] && Next(pre + post, i, -1) == Next(all, j, -1)
  {
  }

  lemma LinkedPush(dbs: seq<NameDB>, dbs': seq<NameDB>, head: int, list: seq<nat>, cur: nat)
    requires Linked(dbs, head, list) && |dbs| == |dbs'| && cur < |dbs| && cur !in list
    requires dbs'[cur].sibling == head
    requires forall i :: 0 <= i < |list| && list[i] < |dbs| ==> dbs'[list[i]].sibling == dbs[list[i]].sibling
    ensures Linked(dbs', cur, [cur] + list)
  {
    var more := [cur] + list;
    forall i | 0 <= i < |more| ensures more[i] < |dbs'| && dbs'[more[i]].sibling == Next(more, i, -1) {
      if i > 0 { assert more[i] == list[i - 1] && Next(more, i, -1) == Next(list, i - 1, -1); }
    }
  }

  // ----- Adoption

  /** The context strictly extends `prefix`. */
  predicate Extends(dbs: seq<NameDB>, b: nat, prefix: string) {
    b < |dbs| && prefix < dbs[b].context
  }

  /** One adoption: unlink `cur`, which follows `pp`, and make it the first child of `n`. */
  function Adopted(dbs: seq<NameDB>, pp: nat, cur: nat, n: nat): seq<NameDB>
    requires pp < |dbs| && cur < |dbs| && n < |dbs|
  {
    var d1 := dbs[pp := dbs[pp].(sibling := dbs[cur].sibling)];
    var d2 := d1[cur := d1[cur].(parent := n, sibling := d1[n].child)];
    d2[n := d2[n].(child := cur)]
  }

  /** The links while `n` adopts: `kept` and `rest` stay siblings after `n`, `moved` are its children. */
  ghost predicate Adopting(dbs: seq<NameDB>, n: nat, kept: seq<nat>, rest: seq<nat>, moved: seq<nat>) {
    && n < |dbs|
    && Linked(dbs, n, [n] + kept + rest)
    && Linked(dbs, dbs[n].child, moved)
    && Sorting.Distinct([n] + kept + rest)
    && Sorting.Distinct(moved)
    && (forall b :: b in moved ==> b !in [n] + kept + rest)
  }

  lemma AdoptedFields(dbs: seq<NameDB>, pp: nat, cur: nat, n: nat)
    requires pp < |dbs| && cur < |dbs| && n < |dbs| && pp != cur && n != cur
    ensures var dbs' := Adopted(dbs, pp, cur, n);
            && |dbs'| == |dbs|
            && dbs'[pp].sibling == dbs[cur].sibling && dbs'[cur].sibling == dbs[n].child
            && dbs'[cur].parent == n && dbs'[n].child == cur
            && (forall b :: 0 <= b < |dbs| && b != pp && b != cur ==> dbs'[b].sibling == dbs[b].sibling)
            && (forall b :: 0 <= b < |dbs| && b != cur ==> dbs'[b].parent == dbs[b].parent)
            && (forall b :: 0 <= b < |dbs| && b != n ==> dbs'[b].child == dbs[b].child)
            && (forall b :: 0 <= b < |dbs| ==> dbs'[b].context == dbs[b].context && dbs'[b].values == dbs[b].values)
  {
  }

  /** The lists `AdoptMove` works on, as one. */
  lemma AdoptingList(dbs: seq<NameDB>, n: nat, kept: seq<nat>, rest: seq<nat>, moved: seq<nat>)
    requires Adopting(dbs, n, kept, rest, moved) && rest != []
    ensures var all := ([n] + kept) + [rest[0]] + rest[1..];
            && all == [n] + kept + rest && Linked(dbs, n, all) && Sorting.Distinct(all)
            && ([n] + kept)[|kept|] < |dbs| && rest[0] < |dbs|
            && ([n] + kept)[|kept|] != rest[0] && n != rest[0]
            && rest[0] !in moved && ([n] + kept)[|kept|] !in moved
  {
    hide Linked, Sorting.Distinct;
    var all, k := ([n] + kept) + [rest[0]] + rest[1..], |kept|;
    assert all == [n] + kept + rest;
    assert all[k] == ([n] + kept)[k] && all[k + 1] == rest[0] && all[0] == n;
    LinkedAt(dbs, n, all, k);
    LinkedAt(dbs, n, all, k + 1);
    DistinctApart(all, k, k + 1);
    DistinctApart(all, 0, k + 1);
    assert all[k] in all && all[k + 1] in all;
  }

  lemma LinkedAt(dbs: seq<NameDB>, head: int, list: seq<nat>, i: nat)
    requires Linked(dbs, head, list) && i < |list|
    ensures list[i] < |dbs|
  {
  }

  lemma AdoptMove(dbs: seq<NameDB>, n: nat, kept: seq<nat>, rest: seq<nat>, moved: seq<nat>)
    requires Adopting(dbs, n, kept, rest, moved) && rest != []
    ensures var pre := [n] + kept;
            && pre[|kept|] < |dbs| && rest[0] < |dbs| && rest[0] !in moved
            && Adopting(Adopted(dbs, pre[|kept|], rest[0], n), n, kept, rest[1..], [rest[0]] + moved)
  {
    hide Adopted, Linked;
    var pre, cur, post := [n] + kept, rest[0], rest[1..];
    AdoptingList(dbs, n, kept, rest, moved);
    var pp := pre[|kept|];
    var dbs' := Adopted(dbs, pp, cur, n);
    AdoptedFields(dbs, pp, cur, n);
    LinkedRemove(dbs, dbs', n, pre, cur, post);
    MovedFrame(dbs, dbs', dbs[n].child, moved, pp, cur);
    LinkedPush(dbs, dbs', dbs[n].child, moved, cur);
    DistinctDrop(pre, cur, post);
    assert pre + post == [n] + kept + post;
    AdoptDistinct(pre + post, cur, moved, pre + [cur] + post);
  }

  lemma MovedFrame(dbs: seq<NameDB>, dbs': seq<NameDB>, head: int, moved: seq<nat>, pp: nat, cur: nat)
    requires |dbs| == |dbs'| && pp !in moved && cur !in moved
    requires forall b :: 0 <= b < |dbs| && b != pp && b != cur ==> dbs'[b].sibling == dbs[b].sibling
    ensures forall i :: 0 <= i < |moved| && moved[i] < |dbs| ==> dbs'[moved[i]].sibling == dbs[moved[i]].sibling
  {
  }

  lemma AdoptDistinct(less: seq<nat>, cur: nat, moved: seq<nat>, all: seq<nat>)
    requires Sorting.Distinct(moved) && cur !in moved && cur !in less
    requires forall b :: b in less ==> b in all
    requires forall b :: b in moved ==> b !in all
    ensures Sorting.Distinct([cur] + moved) && forall b :: b in [cur] + moved ==> b !in less
  {
  }

  lemma DistinctDrop(pre: seq<nat>, cur: nat, post: seq<nat>)
    requires Sorting.Distinct(pre + [cur] + post)
    ensures Sorting.Distinct(pre + post) && cur !in pre + post
    ensures forall b :: b in pre + post ==> b in pre + [cur] + post
  {
    var all, less, m := pre + [cur] + post, pre + post, |pre|;
    forall i | 0 <= i < |less| ensures less[i] == all[if i < m then i else i + 1] {}
    assert all[m] == cur;
  }

  lemma AdoptKeep(dbs: seq<NameDB>, n: nat, kept: seq<nat>, rest: seq<nat>, moved: seq<nat>)
    requires Adopting(dbs, n, kept, rest, moved) && rest != []
    ensures Adopting(dbs, n, kept + [rest[0]], rest[1..], moved)
  {
    assert [n] + (kept + [rest[0]]) + rest[1..] == [n] + kept + rest;
  }

  // ----- Parents after installation

  /** `dbs` is `d0` with a database for `prefix` added and parents adjusted for it. */
  ghost predicate Reparented(d0: seq<NameDB>, dbs: seq<NameDB>, closest: int, prefix: string) {
    var n := |d0|;
    && |dbs| == n + 1
    && dbs[n].context == prefix && dbs[n].parent == closest
    && (forall b :: 0 <= b < n ==> dbs[b].context == d0[b].context && dbs[b].values == d0[b].values)
    && (forall b :: 0 <= b < n ==>
         dbs[b].parent == if d0[b].parent == closest && Extends(d0, b, prefix) then n else d0[b].parent)
  }

  lemma CoversSame(d0: seq<NameDB>, dbs: seq<NameDB>, closest: int, prefix: string, a: int, b: int)
    requires Reparented(d0, dbs, closest, prefix) && 0 <= a < |d0| && 0 <= b < |d0|
    ensures Covers(dbs, a, b) <==> Covers(d0, a, b)
    ensures Covers(dbs, a, |d0|) <==> Applies(d0, a, prefix)
    ensures Covers(dbs, |d0|, b) <==> Extends(d0, b, prefix)
    ensures !Covers(dbs, |d0|, |d0|)
  {
  }

  /** A database below the new one keeps its parent exactly if that parent is below it too. */
  lemma ParentBelowNew(d0: seq<NameDB>, closest: int, prefix: string, b: nat)
    requires b < |d0| && ParentOk(d0, b) && Innermost(d0, closest, prefix) && Extends(d0, b, prefix)
    requires d0[b].parent != closest
    ensures d0[b].parent >= 0 && Extends(d0, d0[b].parent, prefix)
  {
    var p := d0[b].parent;
    if closest >= 0 { assert Covers(d0, closest, b); }
    PrefixesNested(d0[p].context, prefix, d0[b].context);
    if d0[p].context <= prefix {
      assert Applies(d0, p, prefix);
    }
  }

  lemma NewParent(d0: seq<NameDB>, dbs: seq<NameDB>, closest: int, prefix: string, b: nat)
    requires Reparented(d0, dbs, closest, prefix) && Innermost(d0, closest, prefix)
    requires b < |d0| && ParentOk(d0, b)
    ensures ParentOk(dbs, b)
  {
    hide Covers;
    var n, p := |d0|, dbs[b].parent;
    CoversSame(d0, dbs, closest, prefix, b, b);
    if d0[b].parent >= 0 { CoversSame(d0, dbs, closest, prefix, d0[b].parent, b); }
    if Extends(d0, b, prefix) && d0[b].parent != closest {
      ParentBelowNew(d0, closest, prefix, b);
      CoversSame(d0, dbs, closest, prefix, p, p);
    }
    forall a | Covers(dbs, a, b) ensures p >= 0 && (a == p || Covers(dbs, a, p)) {
      CoversBounds(dbs, a, b);
      if a < n {
        CoversSame(d0, dbs, closest, prefix, a, b);
        if p == n {
          if a != closest { CoversApplies(d0, a, closest, prefix); }
          CoversSame(d0, dbs, closest, prefix, a, b);
        } else if a != p {
          CoversSame(d0, dbs, closest, prefix, a, p);
        }
      }
    }
  }

  lemma CoversBounds(dbs: seq<NameDB>, a: int, b: int)
    requires Covers(dbs, a, b)
    ensures 0 <= a < |dbs| && 0 <= b < |dbs|
  {
  }

  lemma CoversApplies(dbs: seq<NameDB>, a: int, b: int, prefix: string)
    requires Covers(dbs, a, b) && Applies(dbs, b, prefix)
    ensures Applies(dbs, a, prefix)
  {
  }

  lemma NewParentOfNew(d0: seq<NameDB>, dbs: seq<NameDB>, closest: int, prefix: string)
    requires Reparented(d0, dbs, closest, prefix) && Innermost(d0, closest, prefix)
    ensures ParentOk(dbs, |d0|)
  {
    hide Covers;
    var n := |d0|;
    if closest >= 0 { CoversSame(d0, dbs, closest, prefix, closest, closest); }
    forall a | Covers(dbs, a, n) ensures closest >= 0 && (a == closest || Covers(dbs, a, closest)) {
      CoversBounds(dbs, a, n);
      if a < n {
        CoversSame(d0, dbs, closest, prefix, a, a);
        if a != closest { CoversSame(d0, dbs, closest, prefix, a, closest); }
      } else if n > 0 {
        CoversSame(d0, dbs, closest, prefix, 0, 0);
      } else {
        NotOwnScope(dbs, a);
      }
    }
  }

  lemma NotOwnScope(dbs: seq<NameDB>, a: int)
    ensures !Covers(dbs, a, a)
  {
  }

  // ----- Child lists after installation

  /** Halfway through adoption: `list` was the child list of `closest` before. */
  ghost predicate AdoptState(d0: seq<NameDB>, dbs: seq<NameDB>, closest: int, prefix: string, list: seq<nat>,
                             kept: seq<nat>, rest: seq<nat>, moved: seq<nat>) {
    var n := |d0|;
    && |dbs| == n + 1 && dbs[n].context == prefix && dbs[n].parent == closest
    && Adopting(dbs, n, kept, rest, moved)
    && (forall b: nat :: b in list <==> b in kept || b in rest || b in moved)
    && (forall b :: b in kept ==> !Extends(d0, b, prefix))
    && (forall b :: b in moved ==> Extends(d0, b, prefix))
    && (forall b :: 0 <= b < n ==> SameButLinks(d0, dbs, closest, list, moved, b))
  }

  ghost predicate SameButLinks(d0: seq<NameDB>, dbs: seq<NameDB>, closest: int, list: seq<nat>, moved: seq<nat>, b: nat)
    requires b < |d0| < |dbs|
  {
    && dbs[b].context == d0[b].context && dbs[b].values == d0[b].values
    && dbs[b].parent == (if b in moved then |d0| else d0[b].parent)
    && dbs[b].child == (if b == closest then |d0| else d0[b].child)
    && (b !in list ==> dbs[b].sibling == d0[b].sibling)
  }

  lemma AdoptStart(d0: seq<NameDB>, root: int, kids: map<int, seq<nat>>, dbs: seq<NameDB>, closest: int,
      prefix: string, values: map<string, int>)
    requires TreeOk(d0, root, kids) && -1 <= closest < |d0|
    requires var d1 := d0 + [NameDB(prefix, closest, Head(d0, root, closest), -1, values)];
             dbs == if closest >= 0 then d1[closest := d1[closest].(child := |d0|)] else d1
    ensures closest in kids && AdoptState(d0, dbs, closest, prefix, kids[closest], [], kids[closest], [])
  {
    hide ParentOk, Linked, Sorting.Distinct;
    assert KidsOk(d0, root, kids, closest);
    var list, n := kids[closest], |d0|;
    forall b | 0 <= b < n ensures SameButLinks(d0, dbs, closest, list, [], b) {}
    forall i | 0 <= i < |list| ensures list[i] < n { assert list[i] in list; }
    LinkedFrame(d0, dbs, Head(d0, root, closest), list);
    LinkedPush(dbs, dbs, Head(d0, root, closest), list, n);
    assert [n] + [] + list == [n] + list;
    DistinctCons(n, list);
    LinkedNone(dbs);
  }

  lemma LinkedNone(dbs: seq<NameDB>)
    ensures Linked(dbs, -1, [])
  {
  }

  lemma AdoptStateMove(d0: seq<NameDB>, dbs: seq<NameDB>, closest: int, prefix: string, list: seq<nat>,
                       kept: seq<nat>, rest: seq<nat>, moved: seq<nat>)
    requires AdoptState(d0, dbs, closest, prefix, list, kept, rest, moved)
    requires rest != [] && Extends(d0, rest[0], prefix)
    ensures var pp := ([|d0|] + kept)[|kept|];
            && pp < |dbs| && rest[0] < |dbs|
            && AdoptState(d0, Adopted(dbs, pp, rest[0], |d0|), closest, prefix, list, kept, rest[1..],
                [rest[0]] + moved)
  {
    hide Adopting, Adopted;
    var n, pp, cur := |d0|, ([|d0|] + kept)[|kept|], rest[0];
    AdoptMove(dbs, n, kept, rest, moved);
    AdoptingList(dbs, n, kept, rest, moved);
    var dbs' := Adopted(dbs, pp, cur, n);
    AdoptedFields(dbs, pp, cur, n);
    assert rest == [cur] + rest[1..];
    assert kept != [] ==> pp == kept[|kept| - 1];
    assert cur in list && (pp in list || pp == n);
    forall b | 0 <= b < n ensures SameButLinks(d0, dbs', closest, list, [cur] + moved, b) {
      assert SameButLinks(d0, dbs, closest, list, moved, b);
    }
    hide SameButLinks;
  }

  lemma AdoptStateKeep(d0: seq<NameDB>, dbs: seq<NameDB>, closest: int, prefix: string, list: seq<nat>,
                       kept: seq<nat>, rest: seq<nat>, moved: seq<nat>)
    requires AdoptState(d0, dbs, closest, prefix, list, kept, rest, moved)
    requires rest != [] && !Extends(d0, rest[0], prefix)
    ensures AdoptState(d0, dbs, closest, prefix, list, kept + [rest[0]], rest[1..], moved)
  {
    hide Adopting, SameButLinks;
    AdoptKeep(dbs, |d0|, kept, rest, moved);
    assert rest == [rest[0]] + rest[1..];
  }

  lemma AdoptNext(d0: seq<NameDB>, dbs: seq<NameDB>, closest: int, prefix: string, list: seq<nat>,
                  kept: seq<nat>, rest: seq<nat>, moved: seq<nat>)
    requires AdoptState(d0, dbs, closest, prefix, list, kept, rest, moved)
    ensures var pp := ([|d0|] + kept)[|kept|];
            pp < |dbs| && dbs[pp].sibling == First(rest, -1) && (rest != [] ==> rest[0] < |dbs|)
  {
    var all, k := [|d0|] + kept + rest, |kept|;
    assert all[k] == ([|d0|] + kept)[k];
    assert dbs[all[k]].sibling == Next(all, k, -1);
    if rest != [] { assert all[k + 1] == rest[0]; }
  }

  lemma AdoptReparented(d0: seq<NameDB>, root: int, kids: map<int, seq<nat>>, dbs: seq<NameDB>, closest: int,
      prefix: string,
                        kept: seq<nat>, moved: seq<nat>)
    requires TreeOk(d0, root, kids) && -1 <= closest < |d0| && closest in kids
    requires AdoptState(d0, dbs, closest, prefix, kids[closest], kept, [], moved)
    ensures Reparented(d0, dbs, closest, prefix)
  {
    hide ParentOk, Adopting, Linked, Sorting.Distinct;
    assert KidsOk(d0, root, kids, closest);
    forall b | 0 <= b < |d0|
      ensures dbs[b].context == d0[b].context && dbs[b].values == d0[b].values
      ensures dbs[b].parent == if d0[b].parent == closest && Extends(d0, b, prefix) then |d0| else d0[b].parent
    {
      assert SameButLinks(d0, dbs, closest, kids[closest], moved, b);
    }
  }

  lemma AdoptKids(d0: seq<NameDB>, root: int, kids: map<int, seq<nat>>, dbs: seq<NameDB>, closest: int, prefix: string,
                  kept: seq<nat>, moved: seq<nat>, p: int)
    requires TreeOk(d0, root, kids) && -1 <= closest < |d0| && closest in kids
    requires AdoptState(d0, dbs, closest, prefix, kids[closest], kept, [], moved)
    requires -1 <= p <= |d0|
    ensures KidsOk(dbs, if closest < 0 then |d0| else root, kids[closest := [|d0|] + kept][|d0| := moved], p)
  {
    hide ParentOk, Linked, Sorting.Distinct, Extends;
    var n := |d0|;
    var root', kids' := if closest < 0 then n else root, kids[closest := [n] + kept][n := moved];
    assert KidsOk(d0, root, kids, closest);
    assert [n] + kept + [] == [n] + kept;
    forall b | 0 <= b < n ensures SameButLinks(d0, dbs, closest, kids[closest], moved, b) && d0[b].parent < n {
      ParentBound(d0, b);
    }
    assert n !in moved by { assert n in [n] + kept + []; }
    if p != n && p != closest {
      assert KidsOk(d0, root, kids, p);
      forall i | 0 <= i < |kids[p]| && kids[p][i] < |d0| ensures dbs[kids[p][i]].sibling == d0[kids[p][i]].sibling {
        assert kids[p][i] in kids[p] && kids[p][i] !in kids[closest];
      }
      LinkedFrame(d0, dbs, Head(d0, root, p), kids[p]);
    }
  }

  lemma ParentBound(dbs: seq<NameDB>, b: nat)
    requires b < |dbs| && ParentOk(dbs, b)
    ensures -1 <= dbs[b].parent < |dbs|
  {
  }

  class NameInfo {
    var dbs: seq<NameDB>
    var root: int
    ghost var kids: map<int, seq<nat>>

    constructor ()
      ensures dbs == [] && TreeOk(dbs, root, kids)
    {
      dbs, root, kids := [], -1, map[-1 := []];
    }

    /** The walk of `namedb`: the innermost database for context `prefix`. */
    method Closest(prefix: string) returns (closest: int)
      requires TreeOk(dbs, root, kids)
      ensures Innermost(dbs, closest, prefix)
    {
      hide Linked, Sorting.Distinct, Covers, ParentOk, TreeOk, Innermost;
      closest := -1;
      var db := root;
      ghost var j := 0;
      WalkStart(dbs, root, kids, prefix);
      while db >= 0
        invariant WalkAt(dbs, kids, closest, db, j, prefix)
        decreases Depth(dbs, closest, prefix), |dbs| - closest, |kids[closest]| - j
      {
        WalkDown(dbs, root, kids, closest, db, j, prefix);
        if dbs[db].context <= prefix {
          if closest >= 0 { CoversDepth(dbs, closest, db); }
          closest, db, j := db, dbs[db].child, 0;
        } else {
          db, j := dbs[db].sibling, j + 1;
        }
      }
      InnermostFound(dbs, root, kids, closest, prefix);
    }

    /** The installing part of `namedb`: a database for a context that has none yet. */
    method InstallNew(prefix: string, values: map<string, int>, closest: int)
      requires TreeOk(dbs, root, kids) && Innermost(dbs, closest, prefix)
      modifies this
      ensures TreeOk(dbs, root, kids)
      ensures Reparented(old(dbs), dbs, closest, prefix) && dbs[|old(dbs)|].values == values
    {
      hide *;
      InnermostBounds(dbs, closest, prefix);
      var n := |dbs|;
      ghost var d0 := dbs;
      dbs := dbs + [NameDB(prefix, closest, if closest >= 0 then dbs[closest].child else root, -1, values)];
      if closest >= 0 {
        dbs := dbs[closest := dbs[closest].(child := n)];
      } else {
        root := n;
      }
      HeadValue(d0, old(root), closest);
      AdoptStart(d0, old(root), kids, dbs, closest, prefix, values);
      ghost var list := kids[closest];
      ghost var kept, rest, moved := [], list, [];
      var pp := n;
      AdoptNext(d0, dbs, closest, prefix, list, kept, rest, moved);
      var cur := dbs[pp].sibling;
      while cur >= 0
        invariant AdoptState(d0, dbs, closest, prefix, list, kept, rest, moved)
        invariant |dbs| == n + 1 && dbs[n].values == values
        invariant kids == old(kids) && root == if closest < 0 then n else old(root)
        invariant pp == ([n] + kept)[|kept|] && cur == First(rest, -1)
        decreases |rest|
      {
        assert rest != [] && cur == rest[0] by { FirstValue(rest); }
        AdoptNext(d0, dbs, closest, prefix, list, kept, rest, moved);
        AdoptContext(d0, dbs, closest, prefix, list, kept, rest, moved);
        if |prefix| < |dbs[cur].context| && dbs[cur].context[..|prefix|] == prefix {
          AdoptStateMove(d0, dbs, closest, prefix, list, kept, rest, moved);
          AdoptedSteps(dbs, pp, cur, n);
          dbs := dbs[pp := dbs[pp].(sibling := dbs[cur].sibling)];
          dbs := dbs[cur := dbs[cur].(parent := n, sibling := dbs[n].child)];
          dbs := dbs[n := dbs[n].(child := cur)];
          rest, moved := rest[1..], [rest[0]] + moved;
        } else {
          AdoptStateKeep(d0, dbs, closest, prefix, list, kept, rest, moved);
          pp := cur;
          kept, rest := kept + [rest[0]], rest[1..];
        }
        AdoptNext(d0, dbs, closest, prefix, list, kept, rest, moved);
        cur := dbs[pp].sibling;
      }
      FirstValue(rest);
      AdoptReparented(d0, old(root), kids, dbs, closest, prefix, kept, moved);
      kids := kids[closest := [n] + kept][n := moved];
      forall p | -1 <= p < |dbs| ensures KidsOk(dbs, root, kids, p) {
        AdoptKids(d0, old(root), old(kids), dbs, closest, prefix, kept, moved, p);
      }
      ReparentedTree(d0, old(root), old(kids), dbs, root, kids, closest, prefix);
    }

    /** The part of `installdb` for a context that already has a database, `c` being the newest. */
    method InstallAgain(values: map<string, int>, c: nat)
      requires TreeOk(dbs, root, kids) && c < |dbs| && Innermost(dbs, c, dbs[c].context)
      modifies this
      ensures TreeOk(dbs, root, kids)
      ensures Reparented(old(dbs), dbs, c, old(dbs[c].context)) && dbs[|old(dbs)|].values == values
    {
      hide *;
      var n := |dbs|;
      ghost var d0 := dbs;
      dbs := dbs + [NameDB(dbs[c].context, c, -1, dbs[c].child, values)];
      dbs := dbs[c := dbs[c].(child := n)];
      TakeoverStart(d0, root, kids, dbs, c, values);
      ghost var list, k := kids[c], 0;
      var child := dbs[n].child;
      FirstValue(list);
      while child >= 0
        invariant 0 <= k <= |list| && child == (if k < |list| then list[k] else -1)
        invariant Takeover(d0, dbs, c, list, k) && |dbs| == n + 1 && dbs[n].values == values
        invariant kids == old(kids) && root == old(root)
        decreases |list| - k
      {
        TakeoverStep(d0, dbs, c, list, k);
        dbs := dbs[child := dbs[child].(parent := n)];
        TakenSibling(d0, dbs, c, list, k + 1, child);
        NextValue(list, k);
        child := dbs[child].sibling;
        k := k + 1;
      }
      TakeoverReparented(d0, root, kids, dbs, c);
      kids := kids[c := [n]][n := kids[c]];
      forall p | -1 <= p < |dbs| ensures KidsOk(dbs, root, kids, p) {
        TakeoverKids(d0, root, old(kids), dbs, c, p);
      }
      ReparentedTree(d0, root, old(kids), dbs, root, kids, c, d0[c].context);
    }

    /** `installdb`: any number of databases may be installed for one context. */
    method Install(context: string, values: map<string, int>)
      requires TreeOk(dbs, root, kids)
      modifies this
      ensures TreeOk(dbs, root, kids)
      ensures Installed(old(dbs), dbs, context, values)
    {
      hide *;
      var closest := Closest(context);
      InnermostBounds(dbs, closest, context);
      if closest >= 0 && dbs[closest].context == context {
        InstallAgain(values, closest);
      } else {
        InstallNew(context, values, closest);
      }
      ReparentedInstalls(old(dbs), dbs, closest, context, values);
    }

    /** The parent walk of `query` within one tree. */
    method QueryFrom(prefix: string, name: string) returns (found: bool, value: int)
      requires TreeOk(dbs, root, kids)
      ensures Answers(dbs, prefix, name, found, value)
    {
      hide TreeOk, Covers;
      var db := Closest(prefix);
      assert QueryAt(dbs, prefix, name, db);
      while db >= 0
        invariant QueryAt(dbs, prefix, name, db)
        decreases if 0 <= db < |dbs| then |dbs[db].context| + 1 else 0, db
      {
        if name in dbs[db].values {
          assert Binds(dbs, prefix, name, db);
          return true, dbs[db].values[name];
        }
        QueryUp(dbs, root, kids, prefix, name, db);
        if dbs[db].parent >= 0 { CoversDepth(dbs, dbs[db].parent, db); }
        db := dbs[db].parent;
      }
      return false, 0;
    }
  }

  /** Installing a second database for the context of `c`: it takes over all children of `c`. */
  ghost predicate Takeover(d0: seq<NameDB>, dbs: seq<NameDB>, c: nat, list: seq<nat>, k: nat) {
    var n := |d0|;
    && c < n && k <= |list| && |dbs| == n + 1
    && dbs[n].context == d0[c].context && dbs[n].parent == c && dbs[n].child == d0[c].child && dbs[n].sibling == -1
    && (forall b :: 0 <= b < n ==> SameButTaken(d0, dbs, c, list[..k], b))
  }

  ghost predicate SameButTaken(d0: seq<NameDB>, dbs: seq<NameDB>, c: nat, taken: seq<nat>, b: nat)
    requires b < |d0| < |dbs|
  {
    && dbs[b].context == d0[b].context && dbs[b].values == d0[b].values && dbs[b].sibling == d0[b].sibling
    && dbs[b].parent == (if b in taken then |d0| else d0[b].parent)
    && dbs[b].child == (if b == c then |d0| else d0[b].child)
  }

  lemma TakeoverStep(d0: seq<NameDB>, dbs: seq<NameDB>, c: nat, list: seq<nat>, k: nat)
    requires Takeover(d0, dbs, c, list, k) && k < |list| && list[k] < |d0|
    ensures Takeover(d0, dbs[list[k] := dbs[list[k]].(parent := |d0|)], c, list, k + 1)
  {
    var taken := list[..k + 1];
    assert taken == list[..k] + [list[k]];
    var dbs' := dbs[list[k] := dbs[list[k]].(parent := |d0|)];
    forall b | 0 <= b < |d0| ensures SameButTaken(d0, dbs', c, taken, b) {
      assert SameButTaken(d0, dbs, c, list[..k], b);
    }
  }

  /** Children of the innermost database for a context are for strictly longer contexts. */
  lemma ChildrenExtend(dbs: seq<NameDB>, c: nat, b: nat)
    requires c < |dbs| && b < |dbs| && ParentOk(dbs, b) && dbs[b].parent == c
    requires Innermost(dbs, c, dbs[c].context)
    ensures Extends(dbs, b, dbs[c].context)
  {
    if dbs[b].context == dbs[c].context {
      assert Applies(dbs, b, dbs[c].context);
    }
  }

  lemma TakeoverReparented(d0: seq<NameDB>, root: int, kids: map<int, seq<nat>>, dbs: seq<NameDB>, c: nat)
    requires TreeOk(d0, root, kids) && c < |d0| && c in kids && Takeover(d0, dbs, c, kids[c], |kids[c]|)
    requires Innermost(d0, c, d0[c].context)
    ensures Reparented(d0, dbs, c, d0[c].context)
  {
    hide ParentOk, Innermost, Linked, Sorting.Distinct, Extends;
    assert KidsOk(d0, root, kids, c);
    assert kids[c][..|kids[c]|] == kids[c];
    forall b | 0 <= b < |d0|
      ensures dbs[b].context == d0[b].context && dbs[b].values == d0[b].values
      ensures dbs[b].parent == if d0[b].parent == c && Extends(d0, b, d0[c].context) then |d0| else d0[b].parent
    {
      assert SameButTaken(d0, dbs, c, kids[c], b);
      if d0[b].parent == c { ChildrenExtend(d0, c, b); }
    }
  }

  lemma TakeoverKids(d0: seq<NameDB>, root: int, kids: map<int, seq<nat>>, dbs: seq<NameDB>, c: nat, p: int)
    requires TreeOk(d0, root, kids) && c < |d0| && c in kids && Takeover(d0, dbs, c, kids[c], |kids[c]|)
    requires -1 <= p <= |d0|
    ensures KidsOk(dbs, root, kids[c := [|d0|]][|d0| := kids[c]], p)
  {
    hide ParentOk, Linked, Sorting.Distinct;
    var n, kids' := |d0|, kids[c := [|d0|]][|d0| := kids[c]];
    assert KidsOk(d0, root, kids, c);
    assert kids[c][..|kids[c]|] == kids[c];
    forall b | 0 <= b < n ensures SameButTaken(d0, dbs, c, kids[c], b) && d0[b].parent < n {
      ParentBound(d0, b);
    }
    var q := if p == n then c else p;
    assert KidsOk(d0, root, kids, q);
    forall i | 0 <= i < |kids[q]| && kids[q][i] < |d0| ensures dbs[kids[q][i]].sibling == d0[kids[q][i]].sibling {}
    LinkedFrame(d0, dbs, Head(d0, root, q), kids[q]);
    LinkedOne(dbs, n);
    assert n !in kids[c];
    forall b: nat ensures b in kids'[p] <==> b < |dbs| && dbs[b].parent == p {
      if b < n { assert SameButTaken(d0, dbs, c, kids[c], b); }
      assert b in kids[c] <==> b < n && d0[b].parent == c;
      assert p != n && p != c ==> (b in kids[p] <==> b < n && d0[b].parent == p);
    }
    assert p == c ==> Head(dbs, root, p) == n;
    assert p != c ==> Head(dbs, root, p) == Head(d0, root, q);
  }

  lemma LinkedOne(dbs: seq<NameDB>, n: nat)
    requires n < |dbs| && dbs[n].sibling == -1
    ensures Linked(dbs, n, [n]) && Sorting.Distinct([n])
  {
  }

  lemma TakeoverStart(d0: seq<NameDB>, root: int, kids: map<int, seq<nat>>, dbs: seq<NameDB>, c: nat,
      values: map<string, int>)
    requires TreeOk(d0, root, kids) && c < |d0|
    requires var d1 := d0 + [NameDB(d0[c].context, c, -1, d0[c].child, values)];
             dbs == d1[c := d1[c].(child := |d0|)]
    ensures c in kids && Takeover(d0, dbs, c, kids[c], 0)
    ensures d0[c].child == First(kids[c], -1) && forall i :: 0 <= i < |kids[c]| ==>
        kids[c][i] < |d0| && d0[kids[c][i]].sibling == Next(kids[c], i, -1)
  {
    hide ParentOk;
    assert KidsOk(d0, root, kids, c);
    forall b | 0 <= b < |d0| ensures SameButTaken(d0, dbs, c, [], b) {}
  }

  /** `dbs` has the databases of `d0`, in their contexts and with their bindings, and one more. */
  ghost predicate Installed(d0: seq<NameDB>, dbs: seq<NameDB>, context: string, values: map<string, int>) {
    && |dbs| == |d0| + 1
    && dbs[|d0|].context == context && dbs[|d0|].values == values
    && forall b :: 0 <= b < |d0| ==> dbs[b].context == d0[b].context && dbs[b].values == d0[b].values
  }

  lemma ReparentedInstalls(d0: seq<NameDB>, dbs: seq<NameDB>, closest: int, context: string, values: map<string, int>)
    requires Reparented(d0, dbs, closest, context) && dbs[|d0|].values == values
    ensures Installed(d0, dbs, context, values)
  {
  }

  lemma TakenSibling(d0: seq<NameDB>, dbs: seq<NameDB>, c: nat, list: seq<nat>, k: nat, b: nat)
    requires Takeover(d0, dbs, c, list, k) && b < |d0|
    ensures |dbs| == |d0| + 1 && dbs[b].sibling == d0[b].sibling
  {
    assert SameButTaken(d0, dbs, c, list[..k], b);
  }

  lemma NextValue(list: seq<nat>, i: nat)
    requires i < |list|
    ensures Next(list, i, -1) == if i + 1 < |list| then list[i + 1] else -1
  {
  }

  lemma InnermostBounds(dbs: seq<NameDB>, c: int, prefix: string)
    requires Innermost(dbs, c, prefix)
    ensures -1 <= c < |dbs|
  {
  }

  lemma HeadValue(dbs: seq<NameDB>, root: int, p: int)
    requires -1 <= p < |dbs|
    ensures Head(dbs, root, p) == if p >= 0 then dbs[p].child else root
  {
  }

  lemma FirstValue(list: seq<nat>)
    ensures First(list, -1) == if list == [] then -1 else list[0]
  {
  }

  lemma AdoptedSteps(dbs: seq<NameDB>, pp: nat, cur: nat, n: nat)
    requires pp < |dbs| && cur < |dbs| && n < |dbs|
    ensures var d1 := dbs[pp := dbs[pp].(sibling := dbs[cur].sibling)];
            var d2 := d1[cur := d1[cur].(parent := n, sibling := d1[n].child)];
            Adopted(dbs, pp, cur, n) == d2[n := d2[n].(child := cur)]
  {
  }

  lemma AdoptContext(d0: seq<NameDB>, dbs: seq<NameDB>, closest: int, prefix: string, list: seq<nat>,
                     kept: seq<nat>, rest: seq<nat>, moved: seq<nat>)
    requires AdoptState(d0, dbs, closest, prefix, list, kept, rest, moved) && rest != [] && rest[0] < |dbs|
    ensures |dbs| == |d0| + 1
    ensures Extends(d0, rest[0], prefix) <==>
              |prefix| < |dbs[rest[0]].context| && dbs[rest[0]].context[..|prefix|] == prefix
  {
    AdoptingList(dbs, |d0|, kept, rest, moved);
    assert SameButLinks(d0, dbs, closest, list, moved, rest[0]);
  }

  lemma ReparentedTree(d0: seq<NameDB>, root0: int, kids0: map<int, seq<nat>>,
                       dbs: seq<NameDB>, root: int, kids: map<int, seq<nat>>, closest: int, prefix: string)
    requires TreeOk(d0, root0, kids0) && Innermost(d0, closest, prefix) && Reparented(d0, dbs, closest, prefix)
    requires forall p :: -1 <= p < |dbs| ==> KidsOk(dbs, root, kids, p)
    ensures TreeOk(dbs, root, kids)
  {
    hide Innermost, ParentOk, KidsOk;
    forall b | 0 <= b < |dbs| ensures ParentOk(dbs, b) {
      if b < |d0| { NewParent(d0, dbs, closest, prefix, b); } else { NewParentOfNew(d0, dbs, closest, prefix); }
    }
  }

  /** Any sequence of installations gives a tree of exactly the databases installed. */
  method InstallAll(installs: seq<(string, map<string, int>)>) returns (ni: NameInfo)
    ensures fresh(ni) && TreeOk(ni.dbs, ni.root, ni.kids) && |ni.dbs| == |installs|
    ensures forall i :: 0 <= i < |installs| ==> ni.dbs[i].context == installs[i].0 && ni.dbs[i].values == installs[i].1
  {
    ni := new NameInfo();
    var i := 0;
    while i < |installs|
      invariant 0 <= i <= |installs| && fresh(ni) && TreeOk(ni.dbs, ni.root, ni.kids) && |ni.dbs| == i
      invariant forall j :: 0 <= j < i ==> ni.dbs[j].context == installs[j].0 && ni.dbs[j].values == installs[j].1
    {
      hide TreeOk;
      ni.Install(installs[i].0, installs[i].1);
      i := i + 1;
    }
  }

  /** The context an element's name gives: everything up to its last slash. */
  function ContextOf(ename: string): string {
    ename[..Strings.FindRight(ename) + 1]
  }

  /** An element's name is its context and a name without slashes; a context is empty or ends in a
      slash. */
  lemma ContextIs(ename: string)
    ensures var context := ContextOf(ename); var n := |context|;
            && n <= |ename| && ename == context + ename[n..] && '/' !in ename[n..]
            && (n == 0 || context[n - 1] == '/')
  {
  }

  /** The context of an element named `base` in the compound `dir`. */
  lemma ContextUnique(dir: string, base: string)
    requires '/' !in base
    ensures ContextOf(dir + "/" + base) == dir + "/" && ContextOf(base) == ""
  {
    var ename, n := dir + "/" + base, |dir| + 1;
    ContextIs(ename);
    ContextIs(base);
    var m := |ContextOf(ename)|;
    assert ename[n - 1] == '/' && ename[n..] == base && ename[..n] == dir + "/" && base[0..] == base;
    SameSlash(ename, m, n);
    SameSlash(base, |ContextOf(base)|, 0);
  }

  /** What follows the last slash is in one place only. */
  lemma SameSlash(s: string, m: nat, n: nat)
    requires m <= |s| && '/' !in s[m..] && (m > 0 ==> s[m - 1] == '/')
    requires n <= |s| && '/' !in s[n..] && (n > 0 ==> s[n - 1] == '/')
    ensures m == n
  {
  }

  /** The answer is bound by a database whose context begins the query's context, a longest such, and
      of several with the same context the one installed last. */
  lemma AnswerIs(dbs: seq<NameDB>, prefix: string, name: string, value: int) returns (a: nat)
    requires Answers(dbs, prefix, name, true, value)
    ensures a < |dbs| && dbs[a].context <= prefix && name in dbs[a].values && dbs[a].values[name] == value
    ensures forall b :: 0 <= b < |dbs| && dbs[b].context <= prefix && name in dbs[b].values ==>
        |dbs[b].context| < |dbs[a].context| || (dbs[b].context == dbs[a].context && b <= a)
  {
    a :| Binds(dbs, prefix, name, a) && dbs[a].values[name] == value;
    forall b | 0 <= b < |dbs| && dbs[b].context <= prefix && name in dbs[b].values
      ensures |dbs[b].context| < |dbs[a].context| || (dbs[b].context == dbs[a].context && b <= a)
    {
      assert Applies(dbs, b, prefix);
    }
  }

  /** A database for the compound `dir` that binds a name answers for every element in `dir`, with the
      binding of the last such database installed. */
  lemma AnsweredInside(dbs: seq<NameDB>, dir: string, base: string, name: string, value: int, a: nat)
    requires '/' !in base && a < |dbs| && dbs[a].context == dir + "/" && name in dbs[a].values
    requires forall b :: a < b < |dbs| && dbs[b].context == dir + "/" ==> name !in dbs[b].values
    ensures !Unbound(dbs, ContextOf(dir + "/" + base), name)
    ensures Answers(dbs, ContextOf(dir + "/" + base), name, true, value) ==> value == dbs[a].values[name]
  {
    ContextUnique(dir, base);
    var prefix := dir + "/";
    assert Applies(dbs, a, prefix);
    if Answers(dbs, prefix, name, true, value) {
      var c := AnswerIs(dbs, prefix, name, value);
      assert |dbs[c].context| <= |prefix|;
      assert dbs[c].context == prefix;
    }
  }

  /** `query` for an element of a router that may have its own databases: those that apply to the
      element's context from the inside out, then the global ones. */
  method Query(router: NameInfo?, global: NameInfo, ename: string, name: string) returns (found: bool, value: int)
    requires router != null ==> TreeOk(router.dbs, router.root, router.kids)
    requires TreeOk(global.dbs, global.root, global.kids)
    ensures var local := router != null && !Unbound(router.dbs, ContextOf(ename), name);
            if local then found && Answers(router.dbs, ContextOf(ename), name, true, value)
            else Answers(global.dbs, "", name, found, value)
  {
    hide TreeOk, Binds;
    if router != null {
      found, value := router.QueryFrom(ContextOf(ename), name);
      if found {
        BoundOrNot(router.dbs, ContextOf(ename), name, value);
        return;
      }
    } else {
      found, value := global.QueryFrom("", name);
      if found { return; }
    }
    found, value := global.QueryFrom("", name);
  }

  lemma BoundOrNot(dbs: seq<NameDB>, prefix: string, name: string, value: int)
    requires Answers(dbs, prefix, name, true, value)
    ensures !Unbound(dbs, prefix, name)
  {
  }

  lemma WalkStart(dbs: seq<NameDB>, root: int, kids: map<int, seq<nat>>, prefix: string)
    requires TreeOk(dbs, root, kids)
    ensures WalkAt(dbs, kids, -1, root, 0, prefix)
  {
    assert KidsOk(dbs, root, kids, -1);
  }

  lemma CoversDepth(dbs: seq<NameDB>, a: int, b: int)
    requires Covers(dbs, a, b)
    ensures |dbs[a].context| < |dbs[b].context| || (|dbs[a].context| == |dbs[b].context| && a < b)
  {
  }
}
