/** Router flattening: compound elements have become pairs of tunnel ends, and chains of
    connections through tunnels are replaced by direct element-to-element connections.

    Pointers to tunnel ends are positions in the arena `ends`, in order of allocation; the
    linked list of the ends of one element is a row of `tunnels`. */
module Flattening {

  datatype Port = Port(idx: nat, port: nat)

  /** A connection from output port `from` to input port `to`. */
  datatype Connection = Connection(from: Port, to: Port)

  function Side(c: Connection, out: bool): Port {
    if out then c.from else c.to
  }

  /** One end of a tunnel: a port of a tunnel element, used as output or as input. */
  datatype End = End(port: Port, out: bool)

  /** The connection graph before expansion: which elements are tunnels, which element each side of
      a tunnel element is joined to, and which sides were declared and left without a partner. */
  datatype Net = Net(conns: seq<Connection>, tunnel: set<nat>, pair: map<(nat, bool), nat>, loose: set<(nat, bool)>)

  /** Only tunnel elements are joined, and joined both ways. */
  ghost predicate SideOk(net: Net, idx: nat, out: bool) {
    && ((idx, out) in net.pair ==>
         && idx in net.tunnel
         && (net.pair[(idx, out)], !out) in net.pair
         && net.pair[(net.pair[(idx, out)], !out)] == idx)
    && ((idx, out) in net.loose ==> idx in net.tunnel && (idx, out) !in net.pair)
  }

  ghost predicate NetOk(net: Net) {
    forall idx: nat, out :: SideOk(net, idx, out)
  }

  ghost predicate Paired(net: Net, e: End) {
    (e.port.idx, e.out) in net.pair
  }

  /** The far end of the tunnel, with the port number carried across. */
  ghost function Other(net: Net, e: End): End
    requires Paired(net, e)
  {
    End(Port(net.pair[(e.port.idx, e.out)], e.port.port), !e.out)
  }

  lemma OtherInvolution(net: Net, e: End)
    requires NetOk(net) && Paired(net, e)
    ensures e.port.idx in net.tunnel
    ensures Paired(net, Other(net, e)) && Other(net, Other(net, e)) == e
  {
    assert SideOk(net, e.port.idx, e.out);
  }

  // ----- What the connections mean: routes through tunnels

  /** Traffic leaving `c` enters a tunnel and comes out where `d` starts. */
  ghost predicate Joined(net: Net, c: Connection, d: Connection) {
    Paired(net, End(c.to, false)) && d.from == Other(net, End(c.to, false)).port
  }

  ghost predicate Route(net: Net, r: seq<Connection>) {
    && r != []
    && (forall i :: 0 <= i < |r| ==> r[i] in net.conns)
    && (forall i :: 0 <= i < |r| - 1 ==> Joined(net, r[i], r[i + 1]))
  }

  ghost predicate RouteBetween(net: Net, r: seq<Connection>, o: Port, i: Port) {
    Route(net, r) && r[0].from == o && r[|r| - 1].to == i
  }

  ghost predicate NoTunnelCycle(net: Net) {
    forall r :: Route(net, r) ==> !Joined(net, r[|r| - 1], r[0])
  }

  // ----- What expansion computes: one direction at a time

  /** The ports on the far side of tunnel end `e`, as the first-level expansion collects them. */
  ghost function FirstCut(conns: seq<Connection>, net: Net, e: End): seq<Port>
    requires Paired(net, e)
  {
    if conns == [] then []
    else
      var c := conns[|conns| - 1];
      FirstCut(conns[..|conns| - 1], net, e)
      + (if Side(c, !e.out) == Other(net, e).port then [Side(c, e.out)] else [])
  }

  lemma {:induction false} FirstCutMembers(conns: seq<Connection>, net: Net, e: End, q: Port)
    requires Paired(net, e)
    ensures q in FirstCut(conns, net, e) <==>
              exists c :: c in conns && Side(c, !e.out) == Other(net, e).port && Side(c, e.out) == q
  {
    if conns != [] {
      var last := |conns| - 1;
      FirstCutMembers(conns[..last], net, e, q);
      assert conns == conns[..last] + [conns[last]];
    }
  }

  ghost predicate Cut(net: Net, p: Port, out: bool, r: Port) {
    Paired(net, End(p, out)) && r in FirstCut(net.conns, net, End(p, out))
  }

  /** Port `q` of a real element is found from `p` by crossing at most `n` tunnels. */
  ghost predicate ReachesIn(net: Net, n: nat, p: Port, out: bool, q: Port) {
    if p.idx !in net.tunnel then q == p
    else n > 0 && exists r :: Cut(net, p, out, r) && ReachesIn(net, n - 1, r, out, q)
  }

  ghost predicate Reaches(net: Net, p: Port, out: bool, q: Port) {
    exists n: nat :: ReachesIn(net, n, p, out, q)
  }

  lemma ReachesStep(net: Net, p: Port, out: bool, r: Port, q: Port)
    requires NetOk(net) && Cut(net, p, out, r) && Reaches(net, r, out, q)
    ensures Reaches(net, p, out, q)
  {
    var n: nat :| ReachesIn(net, n, r, out, q);
    assert SideOk(net, p.idx, out);
    assert ReachesIn(net, n + 1, p, out, q);
  }

  lemma ReachesBack(net: Net, p: Port, out: bool, q: Port) returns (r: Port)
    requires NetOk(net) && p.idx in net.tunnel && Reaches(net, p, out, q)
    ensures Cut(net, p, out, r) && Reaches(net, r, out, q)
  {
    var n: nat :| ReachesIn(net, n, p, out, q);
    r :| Cut(net, p, out, r) && ReachesIn(net, n - 1, r, out, q);
  }

  /** `n` first-level steps lead from `p` to `q`. */
  ghost predicate StepsTo(net: Net, n: nat, p: Port, out: bool, q: Port) {
    if n == 0 then p == q
    else exists r :: Cut(net, p, out, r) && StepsTo(net, n - 1, r, out, q)
  }

  lemma {:induction false} StepsAppend(net: Net, n: nat, p: Port, out: bool, q: Port, r: Port)
    requires StepsTo(net, n, p, out, q) && Cut(net, q, out, r)
    ensures StepsTo(net, n + 1, p, out, r)
    decreases n
  {
    if n == 0 {
      assert StepsTo(net, 0, r, out, r);
    } else {
      var x :| Cut(net, p, out, x) && StepsTo(net, n - 1, x, out, q);
      StepsAppend(net, n - 1, x, out, q, r);
    }
  }

  ghost predicate Ahead(net: Net, p: Port, out: bool, q: Port) {
    exists n: nat :: n > 0 && StepsTo(net, n, p, out, q)
  }

  ghost predicate Acyclic(net: Net) {
    forall p, out :: !Ahead(net, p, out, p)
  }

  /** No way on from `p` meets a cycle. */
  ghost predicate Clear(net: Net, p: Port, out: bool) {
    forall n: nat, q :: StepsTo(net, n, p, out, q) ==> !Ahead(net, q, out, q)
  }

  lemma ClearStep(net: Net, p: Port, out: bool, r: Port)
    requires Clear(net, p, out) && Cut(net, p, out, r)
    ensures Clear(net, r, out)
  {
    forall n: nat, q | StepsTo(net, n, r, out, q) ensures !Ahead(net, q, out, q) {
      assert StepsTo(net, n + 1, p, out, q);
    }
  }

  lemma ClearSelf(net: Net, p: Port, out: bool)
    requires Clear(net, p, out)
    ensures !Ahead(net, p, out, p)
  {
    assert StepsTo(net, 0, p, out, p);
  }

  lemma AcyclicClear(net: Net, p: Port, out: bool)
    requires Acyclic(net)
    ensures Clear(net, p, out)
  {
  }

  // ----- Tunnel ends

  /** `other` is a position in the arena, or negative while unpaired.  `expanded` is 0 before,
      1 during and 2 after expansion. */
  datatype TunnelEnd = TunnelEnd(end: End, other: int, correspond: seq<Port>, expanded: int)

  ghost predicate HasEnd(ends: seq<TunnelEnd>, e: End) {
    exists id :: 0 <= id < |ends| && ends[id].end == e
  }

  function RowIdx(ends: seq<TunnelEnd>, row: seq<nat>): nat
    requires row != [] && row[0] < |ends|
  {
    ends[row[0]].end.port.idx
  }

  ghost predicate RowOk(ends: seq<TunnelEnd>, row: seq<nat>) {
    && row != []
    && (forall k :: 0 <= k < |row| ==> row[k] < |ends|)
    && (forall k :: 0 <= k < |row| ==> ends[row[k]].end.port.idx == RowIdx(ends, row))
  }

  /** Rows have a first end, and their element indices increase. */
  ghost predicate RowsSorted(ends: seq<TunnelEnd>, tunnels: seq<seq<nat>>) {
    && (forall i :: 0 <= i < |tunnels| ==> tunnels[i] != [] && tunnels[i][0] < |ends|)
    && (forall i, j :: 0 <= i < j < |tunnels| ==> RowIdx(ends, tunnels[i]) < RowIdx(ends, tunnels[j]))
  }

  ghost predicate Listed(tunnels: seq<seq<nat>>, id: nat) {
    exists i :: 0 <= i < |tunnels| && id in tunnels[i]
  }

  /** The search structure: rows sorted by element index, every end in its row, no end twice. */
  ghost predicate Directory(ends: seq<TunnelEnd>, tunnels: seq<seq<nat>>) {
    && RowsSorted(ends, tunnels)
    && (forall i :: 0 <= i < |tunnels| ==> RowOk(ends, tunnels[i]))
    && (forall id :: 0 <= id < |ends| ==> Listed(tunnels, id))
    && (forall a, b :: 0 <= a < b < |ends| ==> ends[a].end != ends[b].end)
  }

  /** Every end is paired with the end at the far side of its tunnel, or is a loose one. */
  ghost predicate Pairing(net: Net, ends: seq<TunnelEnd>) {
    forall id :: 0 <= id < |ends| ==> LinkOk(net, ends, id)
  }

  ghost predicate LinkOk(net: Net, ends: seq<TunnelEnd>, id: nat)
    requires id < |ends|
  {
    if ends[id].other < 0 then LooseEnd(net, ends[id].end)
    else
      && Paired(net, ends[id].end)
      && ends[id].other < |ends|
      && ends[ends[id].other].end == Other(net, ends[id].end)
  }

  ghost predicate LooseEnd(net: Net, e: End) {
    (e.port.idx, e.out) in net.loose && e.port.port == 0
  }

  ghost predicate Declared(net: Net, idx: nat, out: bool) {
    (idx, out) in net.pair || (idx, out) in net.loose
  }

  /** Every side of a tunnel element has an end for port 0. */
  ghost predicate Templates(net: Net, ends: seq<TunnelEnd>) {
    forall idx: nat, out :: Declared(net, idx, out) ==> HasEnd(ends, End(Port(idx, 0), out))
  }

  ghost predicate TunnelsOk(net: Net, ends: seq<TunnelEnd>, tunnels: seq<seq<nat>>) {
    NetOk(net) && Directory(ends, tunnels) && Pairing(net, ends) && Templates(net, ends)
  }

  ghost predicate Fresh(t: TunnelEnd) {
    t.correspond == [] && t.expanded == 0
  }

  /** Only untouched ends have been added. */
  ghost predicate Extends(ends: seq<TunnelEnd>, ends': seq<TunnelEnd>) {
    && ends <= ends'
    && forall id :: |ends| <= id < |ends'| ==> Fresh(ends'[id])
  }

  // ----- Adding an end

  ghost function Inserted(tunnels: seq<seq<nat>>, l: nat, found: bool, id: nat): seq<seq<nat>>
    requires if found then l < |tunnels| else l <= |tunnels|
  {
    if found then tunnels[l := [id] + tunnels[l]] else tunnels[..l] + [[id]] + tunnels[l..]
  }

  /** What `FindRow` establishes about position `l`. */
  ghost predicate RowPosition(ends: seq<TunnelEnd>, tunnels: seq<seq<nat>>, idx: nat, l: nat, found: bool)
    requires RowsSorted(ends, tunnels)
  {
    if found then l < |tunnels| && RowIdx(ends, tunnels[l]) == idx
    else
      && l <= |tunnels|
      && (forall i :: 0 <= i < l ==> RowIdx(ends, tunnels[i]) < idx)
      && (forall i :: l <= i < |tunnels| ==> RowIdx(ends, tunnels[i]) > idx)
  }

  lemma RowOfEnd(ends: seq<TunnelEnd>, tunnels: seq<seq<nat>>, id: nat, l: nat, found: bool)
    requires Directory(ends, tunnels) && id < |ends|
    requires RowPosition(ends, tunnels, ends[id].end.port.idx, l, found)
    ensures found && id in tunnels[l]
  {
    assert Listed(tunnels, id);
    var i :| 0 <= i < |tunnels| && id in tunnels[i];
    assert RowOk(ends, tunnels[i]);
    var k :| 0 <= k < |tunnels[i]| && tunnels[i][k] == id;
    assert ends[tunnels[i][k]].end.port.idx == RowIdx(ends, tunnels[i]);
    assert found;
    assert i == l;
  }

  lemma InsertedRowIdx(ends: seq<TunnelEnd>, tunnels: seq<seq<nat>>, te: TunnelEnd, l: nat, found: bool, i: nat)
    requires RowsSorted(ends, tunnels)
    requires RowPosition(ends, tunnels, te.end.port.idx, l, found)
    requires i < |Inserted(tunnels, l, found, |ends|)|
    ensures var row := Inserted(tunnels, l, found, |ends|)[i];
            && row != [] && row[0] < |ends| + 1
            && (i == l ==> RowIdx(ends + [te], row) == te.end.port.idx)
            && (i != l ==>
                row == tunnels[if found || i < l then i else i - 1] && RowIdx(ends + [te], row) == RowIdx(ends, row))
  {
    InsertedSize(tunnels, l, found, |ends|);
    InsertedAt(tunnels, l, found, |ends|, i);
    hide Inserted;
    if i != l {
      var j := if found || i < l then i else i - 1;
      assert tunnels[j] != [] && tunnels[j][0] < |ends|;
    }
  }

  lemma InsertedSize(tunnels: seq<seq<nat>>, l: nat, found: bool, n: nat)
    requires if found then l < |tunnels| else l <= |tunnels|
    ensures |Inserted(tunnels, l, found, n)| == if found then |tunnels| else |tunnels| + 1
  {
  }

  lemma InsertedOrder(ends: seq<TunnelEnd>, tunnels: seq<seq<nat>>, te: TunnelEnd, l: nat, found: bool, i: nat, j: nat)
    requires RowsSorted(ends, tunnels)
    requires RowPosition(ends, tunnels, te.end.port.idx, l, found)
    requires i < j < |Inserted(tunnels, l, found, |ends|)|
    ensures InOrder(ends + [te], Inserted(tunnels, l, found, |ends|), i, j)
  {
    InsertedSize(tunnels, l, found, |ends|);
    InsertedRowIdx(ends, tunnels, te, l, found, i);
    InsertedRowIdx(ends, tunnels, te, l, found, j);
    hide Inserted, RowIdx;
    var a, b := if found || i < l then i else i - 1, if found || j < l then j else j - 1;
    if i == l {
      assert found ==> RowIdx(ends, tunnels[l]) < RowIdx(ends, tunnels[b]);
    } else if j == l {
      assert found ==> RowIdx(ends, tunnels[a]) < RowIdx(ends, tunnels[l]);
    } else {
      assert RowIdx(ends, tunnels[a]) < RowIdx(ends, tunnels[b]);
    }
  }

  lemma InsertedSorted(ends: seq<TunnelEnd>, tunnels: seq<seq<nat>>, te: TunnelEnd, l: nat, found: bool)
    requires RowsSorted(ends, tunnels)
    requires RowPosition(ends, tunnels, te.end.port.idx, l, found)
    ensures RowsSorted(ends + [te], Inserted(tunnels, l, found, |ends|))
  {
    var tunnels', ends' := Inserted(tunnels, l, found, |ends|), ends + [te];
    hide Inserted, RowIdx, RowPosition, RowsSorted, InOrder, RowThere;
    forall i | 0 <= i < |tunnels'| ensures RowThere(ends', tunnels', i) {
      InsertedThere(ends, tunnels, te, l, found, i);
    }
    forall i, j | 0 <= i < j < |tunnels'| ensures InOrder(ends', tunnels', i, j) {
      InsertedOrder(ends, tunnels, te, l, found, i, j);
    }
    SortedIs(ends', tunnels');
  }

  ghost predicate RowThere(ends: seq<TunnelEnd>, tunnels: seq<seq<nat>>, i: nat)
    requires i < |tunnels|
  {
    tunnels[i] != [] && tunnels[i][0] < |ends|
  }

  ghost predicate InOrder(ends: seq<TunnelEnd>, tunnels: seq<seq<nat>>, i: nat, j: nat)
    requires i < |tunnels| && j < |tunnels|
  {
    RowThere(ends, tunnels, i) && RowThere(ends, tunnels, j) && RowIdx(ends, tunnels[i]) < RowIdx(ends, tunnels[j])
  }

  lemma SortedIs(ends: seq<TunnelEnd>, tunnels: seq<seq<nat>>)
    requires forall i :: 0 <= i < |tunnels| ==> RowThere(ends, tunnels, i)
    requires forall i, j :: 0 <= i < j < |tunnels| ==> InOrder(ends, tunnels, i, j)
    ensures RowsSorted(ends, tunnels)
  {
    hide RowIdx;
    forall i | 0 <= i < |tunnels| ensures tunnels[i] != [] && tunnels[i][0] < |ends| {
      assert RowThere(ends, tunnels, i);
    }
    forall i, j | 0 <= i < j < |tunnels| ensures RowIdx(ends, tunnels[i]) < RowIdx(ends, tunnels[j]) {
      assert InOrder(ends, tunnels, i, j);
    }
  }

  lemma InsertedThere(ends: seq<TunnelEnd>, tunnels: seq<seq<nat>>, te: TunnelEnd, l: nat, found: bool, i: nat)
    requires RowsSorted(ends, tunnels)
    requires RowPosition(ends, tunnels, te.end.port.idx, l, found)
    requires i < |Inserted(tunnels, l, found, |ends|)|
    ensures RowThere(ends + [te], Inserted(tunnels, l, found, |ends|), i)
  {
    hide RowsSorted, RowPosition, Inserted;
    InsertedRowIdx(ends, tunnels, te, l, found, i);
  }

  lemma RowOkExtend(ends: seq<TunnelEnd>, te: TunnelEnd, row: seq<nat>)
    requires RowOk(ends, row)
    ensures RowOk(ends + [te], row)
  {
    assert RowIdx(ends + [te], row) == RowIdx(ends, row);
  }

  lemma RowOkCons(ends: seq<TunnelEnd>, te: TunnelEnd, row: seq<nat>)
    requires row == [] || (RowOk(ends, row) && RowIdx(ends, row) == te.end.port.idx)
    ensures RowOk(ends + [te], [|ends|] + row)
  {
    var row', ends' := [|ends|] + row, ends + [te];
    forall k | 0 <= k < |row'| ensures row'[k] < |ends'| && ends'[row'[k]].end.port.idx == te.end.port.idx {
      if k > 0 { assert row'[k] == row[k - 1]; }
    }
  }

  /** Where the rows are after one was extended or inserted. */
  lemma InsertedAt(tunnels: seq<seq<nat>>, l: nat, found: bool, n: nat, i: nat)
    requires if found then l < |tunnels| else l <= |tunnels|
    requires i < |Inserted(tunnels, l, found, n)|
    ensures var row := Inserted(tunnels, l, found, n)[i];
            if i == l then row == [n] + (if found then tunnels[l] else [])
            else row == tunnels[if found || i < l then i else i - 1]
  {
  }

  lemma RowOkListed(ends: seq<TunnelEnd>, tunnels: seq<seq<nat>>, i: nat)
    requires Directory(ends, tunnels) && i < |tunnels|
    ensures RowOk(ends, tunnels[i])
  {
  }

  lemma InsertedRow(ends: seq<TunnelEnd>, tunnels: seq<seq<nat>>, te: TunnelEnd, l: nat, found: bool, i: nat)
    requires Directory(ends, tunnels)
    requires RowPosition(ends, tunnels, te.end.port.idx, l, found)
    requires i < |Inserted(tunnels, l, found, |ends|)|
    ensures RowOk(ends + [te], Inserted(tunnels, l, found, |ends|)[i])
  {
    var row := Inserted(tunnels, l, found, |ends|)[i];
    if found {
      assert RowOk(ends, tunnels[i]);
    }
    hide RowOk, RowsSorted, Directory, RowPosition;
    InsertedAt(tunnels, l, found, |ends|, i);
    if i == l {
      RowOkCons(ends, te, if found then tunnels[l] else []);
    } else {
      RowOkListed(ends, tunnels, if found || i < l then i else i - 1);
      RowOkExtend(ends, te, row);
    }
  }

  lemma InsertedListed(tunnels: seq<seq<nat>>, l: nat, found: bool, n: nat, id: nat)
    requires if found then l < |tunnels| else l <= |tunnels|
    requires id == n || Listed(tunnels, id)
    ensures Listed(Inserted(tunnels, l, found, n), id)
  {
    var tunnels' := Inserted(tunnels, l, found, n);
    if id == n {
      assert tunnels'[l][0] == n;
    } else {
      var i :| 0 <= i < |tunnels| && id in tunnels[i];
      var j := if found || i < l then i else i + 1;
      assert id in tunnels'[j];
    }
  }

  lemma DirectoryAdd(ends: seq<TunnelEnd>, tunnels: seq<seq<nat>>, te: TunnelEnd, l: nat, found: bool)
    requires Directory(ends, tunnels) && !HasEnd(ends, te.end)
    requires RowPosition(ends, tunnels, te.end.port.idx, l, found)
    ensures Directory(ends + [te], Inserted(tunnels, l, found, |ends|))
  {
    var tunnels', ends' := Inserted(tunnels, l, found, |ends|), ends + [te];
    InsertedSorted(ends, tunnels, te, l, found);
    forall i | 0 <= i < |tunnels'| ensures RowOk(ends', tunnels'[i]) {
      InsertedRow(ends, tunnels, te, l, found, i);
    }
    forall id | 0 <= id < |ends'| ensures Listed(tunnels', id) {
      InsertedListed(tunnels, l, found, |ends|, id);
    }
    forall a, b | 0 <= a < b < |ends'| ensures ends'[a].end != ends'[b].end {
      if b == |ends| { assert ends[a].end != te.end; }
    }
  }

  lemma HasEndAppend(ends: seq<TunnelEnd>, te: TunnelEnd, e: End)
    ensures HasEnd(ends + [te], e) <==> HasEnd(ends, e) || te.end == e
  {
    if HasEnd(ends, e) {
      var id :| 0 <= id < |ends| && ends[id].end == e;
      assert (ends + [te])[id].end == e;
    }
    assert (ends + [te])[|ends|] == te;
  }

  /** Two ends created together, each naming the other, complete the pairing again. */
  lemma PairingAdd(net: Net, ends: seq<TunnelEnd>, e: End)
    requires NetOk(net) && Pairing(net, ends) && Paired(net, e)
    ensures var n := |ends|;
            Pairing(net, ends + [TunnelEnd(e, n + 1, [], 0), TunnelEnd(Other(net, e), n, [], 0)])
  {
    OtherInvolution(net, e);
    var ends' := ends + [TunnelEnd(e, |ends| + 1, [], 0), TunnelEnd(Other(net, e), |ends|, [], 0)];
    forall id | 0 <= id < |ends'| ensures LinkOk(net, ends', id) {
      if id < |ends| { assert LinkOk(net, ends, id); }
    }
  }

  lemma OtherPresent(net: Net, ends: seq<TunnelEnd>, e: End)
    requires NetOk(net) && Pairing(net, ends) && Paired(net, e)
    ensures HasEnd(ends, Other(net, e)) ==> HasEnd(ends, e)
  {
    if HasEnd(ends, Other(net, e)) {
      var id :| 0 <= id < |ends| && ends[id].end == Other(net, e);
      OtherInvolution(net, e);
      assert LinkOk(net, ends, id);
      assert SideOk(net, Other(net, e).port.idx, !e.out);
      assert ends[ends[id].other].end == e;
    }
  }

  lemma TemplatesExtend(net: Net, ends: seq<TunnelEnd>, ends': seq<TunnelEnd>)
    requires Templates(net, ends) && |ends| <= |ends'|
    requires forall id :: 0 <= id < |ends| ==> ends'[id].end == ends[id].end
    ensures Templates(net, ends')
  {
    forall idx: nat, out | Declared(net, idx, out) ensures HasEnd(ends', End(Port(idx, 0), out)) {
      assert HasEnd(ends, End(Port(idx, 0), out));
      var id :| 0 <= id < |ends| && ends[id].end == End(Port(idx, 0), out);
      assert ends'[id].end == End(Port(idx, 0), out);
    }
  }

  /** The search structure does not look at anything but the ends' identities. */
  lemma DirectorySame(ends: seq<TunnelEnd>, ends': seq<TunnelEnd>, tunnels: seq<seq<nat>>)
    requires Directory(ends, tunnels) && |ends| == |ends'|
    requires forall id :: 0 <= id < |ends| ==> ends'[id].end == ends[id].end
    ensures Directory(ends', tunnels)
  {
    assert forall i :: 0 <= i < |tunnels| ==> RowOk(ends, tunnels[i]);
    assert forall i :: 0 <= i < |tunnels| ==> RowIdx(ends, tunnels[i]) == RowIdx(ends', tunnels[i]);
    forall i | 0 <= i < |tunnels| ensures RowOk(ends', tunnels[i]) {
      assert RowOk(ends, tunnels[i]);
    }
  }

  // ----- What expansion keeps

  ghost predicate Sound(net: Net, p: Port, out: bool, ps: seq<Port>) {
    forall q :: q in ps ==> Reaches(net, p, out, q)
  }

  ghost predicate Complete(net: Net, p: Port, out: bool, ps: seq<Port>) {
    forall q :: Reaches(net, p, out, q) ==> q in ps
  }

  /** Unexpanded ends hold their first cut; expanded ends hold only, and with no cycle ahead all
      of, the real ports they lead to. */
  ghost predicate EndOk(net: Net, t: TunnelEnd) {
    && 0 <= t.expanded <= 2
    && if t.other < 0 then Fresh(t) else Paired(net, t.end) && ListOk(net, t)
  }

  ghost predicate ListOk(net: Net, t: TunnelEnd)
    requires Paired(net, t.end)
  {
    && (t.expanded == 0 ==> t.correspond == FirstCut(net.conns, net, t.end))
    && (t.expanded != 0 ==> Sound(net, t.end.port, t.end.out, t.correspond))
    && (t.expanded == 2 && Clear(net, t.end.port, t.end.out) ==> Complete(net, t.end.port, t.end.out, t.correspond))
  }

  ghost predicate EndsOk(net: Net, ends: seq<TunnelEnd>) {
    forall id :: 0 <= id < |ends| ==> EndOk(net, ends[id])
  }

  /** Ends not created yet would start with an empty first cut. */
  ghost predicate AbsentEmpty(net: Net, ends: seq<TunnelEnd>) {
    forall e :: Paired(net, e) && !HasEnd(ends, e) ==> FirstCut(net.conns, net, e) == []
  }

  /** The ends being expanded all lead to port `p`. */
  ghost predicate BusyAhead(net: Net, ends: seq<TunnelEnd>, p: Port, out: bool) {
    forall id :: 0 <= id < |ends| && ends[id].expanded == 1 ==>
      ends[id].end.out == out && Ahead(net, ends[id].end.port, out, p)
  }

  /** The log of expansion bodies run so far: each end at most once, and exactly the ends that
      are no longer unexpanded. */
  ghost predicate LogOk(ends: seq<TunnelEnd>, runs: seq<End>) {
    && (forall i, j :: 0 <= i < j < |runs| ==> runs[i] != runs[j])
    && (forall id :: 0 <= id < |ends| ==> (ends[id].end in runs <==> ends[id].expanded != 0))
    && (forall e :: e in runs ==> HasEnd(ends, e))
  }

  /** How a single end may change: only from unexpanded to expanded. */
  ghost predicate EndGrows(t: TunnelEnd, t': TunnelEnd) {
    && t'.end == t.end && t'.other == t.other
    && (t' == t || (t.expanded == 0 && t'.expanded == 2))
  }

  ghost predicate Grows(ends: seq<TunnelEnd>, ends': seq<TunnelEnd>) {
    && |ends| <= |ends'|
    && (forall id :: 0 <= id < |ends| ==> EndGrows(ends[id], ends'[id]))
    && (forall id :: |ends| <= id < |ends'| ==> ends'[id].expanded != 1)
  }

  lemma GrowsTrans(a: seq<TunnelEnd>, b: seq<TunnelEnd>, c: seq<TunnelEnd>)
    requires Grows(a, b) && Grows(b, c)
    ensures Grows(a, c)
  {
    forall id | 0 <= id < |a| ensures EndGrows(a[id], c[id]) {
      assert EndGrows(a[id], b[id]) && EndGrows(b[id], c[id]);
    }
    forall id | |a| <= id < |c| ensures c[id].expanded != 1 {
      if id < |b| { assert EndGrows(b[id], c[id]); }
    }
  }

  lemma BusyGrows(net: Net, ends: seq<TunnelEnd>, ends': seq<TunnelEnd>, p: Port, out: bool)
    requires BusyAhead(net, ends, p, out) && Grows(ends, ends')
    ensures BusyAhead(net, ends', p, out)
  {
    forall id | 0 <= id < |ends'| && ends'[id].expanded == 1
      ensures ends'[id].end.out == out && Ahead(net, ends'[id].end.port, out, p)
    {
      assert id < |ends| ==> EndGrows(ends[id], ends'[id]);
      assert ends[id] == ends'[id];
    }
  }

  lemma BusyStep(net: Net, ends: seq<TunnelEnd>, p: Port, out: bool, r: Port)
    requires BusyAhead(net, ends, p, out) && Cut(net, p, out, r)
    ensures BusyAhead(net, ends, r, out)
  {
    forall id | 0 <= id < |ends| && ends[id].expanded == 1
      ensures Ahead(net, ends[id].end.port, out, r)
    {
      var n: nat :| n > 0 && StepsTo(net, n, ends[id].end.port, out, p);
      StepsAppend(net, n, ends[id].end.port, out, p, r);
    }
  }

  /** The whole state between expansion steps. */
  ghost predicate ExpandOk(net: Net, ends: seq<TunnelEnd>, tunnels: seq<seq<nat>>, runs: seq<End>) {
    TunnelsOk(net, ends, tunnels) && EndsOk(net, ends) && AbsentEmpty(net, ends) && LogOk(ends, runs)
  }

  lemma ExtendsKeeps(net: Net, ends: seq<TunnelEnd>, ends': seq<TunnelEnd>, runs: seq<End>)
    requires EndsOk(net, ends) && AbsentEmpty(net, ends) && LogOk(ends, runs)
    requires Extends(ends, ends')
    requires forall id :: 0 <= id < |ends'| && ends'[id].other >= 0 ==> Paired(net, ends'[id].end)
    requires forall a, b :: 0 <= a < b < |ends'| ==> ends'[a].end != ends'[b].end
    ensures EndsOk(net, ends') && AbsentEmpty(net, ends') && LogOk(ends', runs)
    ensures Grows(ends, ends')
  {
    forall e ensures HasEnd(ends, e) ==> HasEnd(ends', e) {
      if HasEnd(ends, e) {
        var id :| 0 <= id < |ends| && ends[id].end == e;
        assert ends'[id].end == e;
      }
    }
    forall id | |ends| <= id < |ends'| ensures EndOk(net, ends'[id]) && ends'[id].end !in runs {
      assert Fresh(ends'[id]);
      assert !HasEnd(ends, ends'[id].end);
    }
  }

  lemma UpdateEnd(net: Net, ends: seq<TunnelEnd>, tunnels: seq<seq<nat>>, runs: seq<End>, id: nat, t: TunnelEnd)
    requires ExpandOk(net, ends, tunnels, runs) && id < |ends|
    requires t.end == ends[id].end && t.other == ends[id].other && EndOk(net, t)
    requires t.expanded != 0
    ensures ExpandOk(net, ends[id := t], tunnels, if ends[id].expanded == 0 then runs + [t.end] else runs)
  {
    hide Directory, NetOk, EndOk, Sound, Complete, Clear;
    var ends' := ends[id := t];
    assert forall k :: 0 <= k < |ends| ==> ends'[k].end == ends[k].end;
    DirectorySame(ends, ends', tunnels);
    TemplatesExtend(net, ends, ends');
    forall k | 0 <= k < |ends'| ensures LinkOk(net, ends', k) { assert LinkOk(net, ends, k); }
    forall e ensures HasEnd(ends, e) <==> HasEnd(ends', e) { SameEnds(ends, ends', e); }
    assert EndsOk(net, ends');
    UpdateLog(ends, tunnels, runs, id, t);
  }

  lemma SameEnds(ends: seq<TunnelEnd>, ends': seq<TunnelEnd>, e: End)
    requires |ends| == |ends'| && forall id :: 0 <= id < |ends| ==> ends'[id].end == ends[id].end
    ensures HasEnd(ends, e) <==> HasEnd(ends', e)
  {
    if HasEnd(ends, e) {
      var id :| 0 <= id < |ends| && ends[id].end == e;
      assert ends'[id].end == e;
    }
    if HasEnd(ends', e) {
      var id :| 0 <= id < |ends| && ends'[id].end == e;
      assert ends[id].end == e;
    }
  }

  lemma UpdateLog(ends: seq<TunnelEnd>, tunnels: seq<seq<nat>>, runs: seq<End>, id: nat, t: TunnelEnd)
    requires Directory(ends, tunnels) && LogOk(ends, runs) && id < |ends|
    requires t.end == ends[id].end && t.expanded != 0
    ensures LogOk(ends[id := t], if ends[id].expanded == 0 then runs + [t.end] else runs)
  {
    var ends', runs' := ends[id := t], if ends[id].expanded == 0 then runs + [t.end] else runs;
    forall e | e in runs' ensures HasEnd(ends', e) {
      assert HasEnd(ends, e);
      SameEnds(ends, ends', e);
    }
  }

  lemma GrowsAround(start: seq<TunnelEnd>, b: seq<TunnelEnd>, a: seq<TunnelEnd>, id: nat)
    requires id < |start| && id < |b| && start[id].expanded == 1
    requires Grows(start, b[id := start[id]]) && Grows(b, a)
    ensures Grows(start, a[id := start[id]])
  {
    var b', a' := b[id := start[id]], a[id := start[id]];
    forall k | 0 <= k < |b'| ensures EndGrows(b'[k], a'[k]) {
      if k != id { assert EndGrows(b[k], a[k]); }
    }
    GrowsTrans(start, b', a');
  }

  /** Marking an end and storing its result amounts to growth of that end. */
  lemma GrowsFinish(ends: seq<TunnelEnd>, start: seq<TunnelEnd>, a: seq<TunnelEnd>, id: nat, t: TunnelEnd)
    requires id < |ends| == |start| && ends[id].expanded == 0
    requires start == ends[id := start[id]] && id < |a| && Grows(start, a[id := start[id]])
    requires t.end == ends[id].end && t.other == ends[id].other && t.expanded == 2
    ensures Grows(ends, a[id := t])
  {
    var a', c := a[id := start[id]], a[id := t];
    forall k | 0 <= k < |ends| ensures EndGrows(ends[k], c[k]) {
      if k != id { assert EndGrows(start[k], a'[k]); }
    }
    forall k | |ends| <= k < |c| ensures c[k].expanded != 1 {
      assert a'[k].expanded != 1;
    }
  }

  lemma BusyMark(net: Net, ends: seq<TunnelEnd>, start: seq<TunnelEnd>, id: nat, r: Port)
    requires id < |ends| == |start| && start == ends[id := start[id]] && start[id].end == ends[id].end
    requires BusyAhead(net, ends, ends[id].end.port, ends[id].end.out)
    requires Cut(net, ends[id].end.port, ends[id].end.out, r)
    ensures BusyAhead(net, start, r, ends[id].end.out)
  {
    var p, out := ends[id].end.port, ends[id].end.out;
    BusyStep(net, ends, p, out, r);
    assert StepsTo(net, 0, r, out, r);
    assert StepsTo(net, 1, p, out, r);
  }

  lemma SoundLift(net: Net, p: Port, out: bool, r: Port, acc: seq<Port>, more: seq<Port>)
    requires NetOk(net) && Cut(net, p, out, r)
    requires Sound(net, p, out, acc) && Sound(net, r, out, more)
    ensures Sound(net, p, out, acc + more)
  {
    forall q | q in acc + more ensures Reaches(net, p, out, q) {
      if q !in acc { ReachesStep(net, p, out, r, q); }
    }
  }

  lemma CompleteLift(net: Net, p: Port, out: bool, acc: seq<Port>)
    requires NetOk(net) && Paired(net, End(p, out))
    requires forall r :: Cut(net, p, out, r) ==> Complete(net, r, out, acc)
    ensures Complete(net, p, out, acc)
  {
    OtherInvolution(net, End(p, out));
    forall q | Reaches(net, p, out, q) ensures q in acc {
      var r := ReachesBack(net, p, out, q);
    }
  }

  lemma RealPort(net: Net, p: Port, out: bool)
    requires p.idx !in net.tunnel
    ensures Sound(net, p, out, [p]) && Complete(net, p, out, [p])
  {
    assert ReachesIn(net, 0, p, out, p);
  }

  lemma UnpairedPort(net: Net, p: Port, out: bool)
    requires p.idx in net.tunnel && !Paired(net, End(p, out))
    ensures Sound(net, p, out, []) && Complete(net, p, out, [])
  {
  }

  lemma BusyMeansCycle(net: Net, ends: seq<TunnelEnd>, id: nat)
    requires id < |ends| && ends[id].expanded == 1
    requires BusyAhead(net, ends, ends[id].end.port, ends[id].end.out)
    ensures !Clear(net, ends[id].end.port, ends[id].end.out) && Sound(net, ends[id].end.port, ends[id].end.out, [])
  {
    var p, out := ends[id].end.port, ends[id].end.out;
    if Clear(net, p, out) { ClearSelf(net, p, out); }
  }

  lemma EndResult(net: Net, ends: seq<TunnelEnd>, tunnels: seq<seq<nat>>, runs: seq<End>, id: nat)
    requires ExpandOk(net, ends, tunnels, runs) && id < |ends| && ends[id].expanded != 0 && ends[id].expanded != 1
    ensures Sound(net, ends[id].end.port, ends[id].end.out, ends[id].correspond)
    ensures var e := ends[id].end; Clear(net, e.port, e.out) ==> Complete(net, e.port, e.out, ends[id].correspond)
  {
    assert EndOk(net, ends[id]);
  }

  lemma MarkOk(net: Net, ends: seq<TunnelEnd>, tunnels: seq<seq<nat>>, runs: seq<End>, id: nat)
    requires ExpandOk(net, ends, tunnels, runs) && id < |ends| && ends[id].expanded == 0 && ends[id].other >= 0
    ensures NetOk(net) && Paired(net, ends[id].end) && ends[id].end !in runs
    ensures ends[id].correspond == FirstCut(net.conns, net, ends[id].end)
    ensures ExpandOk(net, ends[id := ends[id].(correspond := [], expanded := 1)], tunnels, runs + [ends[id].end])
    ensures Sound(net, ends[id].end.port, ends[id].end.out, [])
  {
    hide Directory, Pairing, Templates, AbsentEmpty, NetOk;
    assert EndOk(net, ends[id]);
    UpdateEnd(net, ends, tunnels, runs, id, ends[id].(correspond := [], expanded := 1));
  }

  lemma FinishOk(net: Net, ends: seq<TunnelEnd>, tunnels: seq<seq<nat>>, runs: seq<End>, id: nat, t: TunnelEnd)
    requires ExpandOk(net, ends, tunnels, runs) && id < |ends| && ends[id].expanded == 1
    requires t.end == ends[id].end && t.other == ends[id].other && 1 <= t.expanded <= 2
    requires Sound(net, t.end.port, t.end.out, t.correspond)
    requires t.expanded == 2 && Clear(net, t.end.port, t.end.out) ==> Complete(net, t.end.port, t.end.out, t.correspond)
    ensures ExpandOk(net, ends[id := t], tunnels, runs)
  {
    hide Directory, Pairing, Templates, AbsentEmpty, NetOk, Sound, Complete, Clear;
    assert EndOk(net, ends[id]);
    UpdateEnd(net, ends, tunnels, runs, id, t);
  }

  lemma GrowsRefl(ends: seq<TunnelEnd>)
    ensures Grows(ends, ends)
  {
  }

  lemma BusySame(net: Net, ends: seq<TunnelEnd>, ends': seq<TunnelEnd>, id: nat, p: Port, out: bool)
    requires id < |ends| == |ends'| && ends' == ends[id := ends'[id]]
    requires ends'[id].end == ends[id].end && ends'[id].expanded == ends[id].expanded
    requires BusyAhead(net, ends, p, out)
    ensures BusyAhead(net, ends', p, out)
  {
  }

  lemma BusyFixed(b: seq<TunnelEnd>, a: seq<TunnelEnd>, id: nat)
    requires id < |b| && b[id].expanded == 1 && Grows(b, a)
    ensures id < |a| && a[id] == b[id]
  {
    assert EndGrows(b[id], a[id]);
  }

  lemma CompleteMore(net: Net, p: Port, out: bool, ps: seq<Port>, more: seq<Port>)
    ensures Complete(net, p, out, ps) ==> Complete(net, p, out, ps + more)
    ensures Complete(net, p, out, more) ==> Complete(net, p, out, ps + more)
  {
  }

  lemma CompleteAll(net: Net, e: End, cut: seq<Port>, acc: seq<Port>)
    requires NetOk(net) && Paired(net, e) && cut == FirstCut(net.conns, net, e)
    requires forall j :: 0 <= j < |cut| ==> Complete(net, cut[j], e.out, acc)
    ensures Complete(net, e.port, e.out, acc)
  {
    hide Complete;
    assert End(e.port, e.out) == e;
    forall r | Cut(net, e.port, e.out, r) ensures Complete(net, r, e.out, acc) {
      var j :| 0 <= j < |cut| && cut[j] == r;
    }
    CompleteLift(net, e.port, e.out, acc);
  }

  // ----- Ends without a partner

  ghost predicate IsSide(net: Net, p: Port, out: bool) {
    exists c :: c in net.conns && Side(c, out) == p
  }

  /** Entering `p` on its `out` side, the source looks up the partner of a loose end: the end of that
      side itself, or, where there is none, the one it takes for a pattern to report an error. */
  ghost predicate FollowsNull(net: Net, p: Port, out: bool) {
    || (p.idx, out) in net.loose
    || (!Declared(net, p.idx, out) && (p.idx, !out) in net.loose && p.port != 0)
  }

  ghost predicate NoLooseSide(net: Net) {
    forall p, out :: IsSide(net, p, out) ==> (p.idx, out) !in net.loose
  }

  ghost predicate Safe(net: Net) {
    forall p, out :: IsSide(net, p, out) ==> !FollowsNull(net, p, out)
  }

  lemma NotSafe(net: Net, p: Port, out: bool)
    requires IsSide(net, p, out) && FollowsNull(net, p, out)
    ensures !Safe(net)
  {
  }

  lemma SafeSides(net: Net)
    requires Safe(net)
    ensures NoLooseSide(net)
  {
  }

  lemma SideIs(net: Net, c: Connection)
    requires c in net.conns
    ensures IsSide(net, c.from, true) && IsSide(net, c.to, false)
  {
    assert Side(c, true) == c.from && Side(c, false) == c.to;
  }

  // ----- Termination

  ghost function PortsOf(net: Net): set<Port> {
    (set c | c in net.conns :: c.from) + (set c | c in net.conns :: c.to)
  }

  /** The ends that could still be expanded. */
  ghost function Unexpanded(net: Net, runs: seq<End>): set<End> {
    (set p | p in PortsOf(net) :: End(p, true)) + (set p | p in PortsOf(net) :: End(p, false)) - (set e | e in runs)
  }

  lemma UnexpandedShrinks(net: Net, runs: seq<End>, e: End)
    requires e.port in PortsOf(net) && e !in runs
    ensures forall more :: runs + [e] <= more ==> Unexpanded(net, more) < Unexpanded(net, runs)
  {
    forall more | runs + [e] <= more ensures Unexpanded(net, more) < Unexpanded(net, runs) {
      assert e in more by { assert more[|runs|] == e; }
      forall x | x in runs ensures x in more {
        var i :| 0 <= i < |runs| && runs[i] == x;
        assert more[i] == (runs + [e])[i];
      }
      assert e in Unexpanded(net, runs) && e !in Unexpanded(net, more);
    }
  }

  lemma CutPort(net: Net, p: Port, out: bool, r: Port)
    requires Cut(net, p, out, r)
    ensures r in PortsOf(net) && IsSide(net, r, out)
  {
    FirstCutMembers(net.conns, net, End(p, out), r);
  }

  lemma CutMember(net: Net, e: End, cut: seq<Port>, i: nat)
    requires Paired(net, e) && cut == FirstCut(net.conns, net, e) && i < |cut|
    ensures Cut(net, e.port, e.out, cut[i]) && cut[i] in PortsOf(net) && IsSide(net, cut[i], e.out)
  {
    assert End(e.port, e.out) == e;
    CutPort(net, e.port, e.out, cut[i]);
  }

  // ----- What the walk finds, exactly

  /** What is known of a tunnel end: it is being expanded, or what it was expanded to. */
  datatype Entry = Busy | Done(ports: seq<Port>)

  ghost function Left(net: Net, table: map<End, Entry>): set<End> {
    (set p | p in PortsOf(net) :: End(p, true)) + (set p | p in PortsOf(net) :: End(p, false)) - table.Keys
  }

  /** The ports that `p` is expanded to, given what is known, and what is known afterwards.  An end
      that is being expanded counts for nothing. */
  ghost function Walk(net: Net, table: map<End, Entry>, p: Port, out: bool): (r: (seq<Port>, map<End, Entry>))
    requires p in PortsOf(net)
    ensures table.Keys <= r.1.Keys
    decreases Left(net, table), 0, 0
  {
    var e := End(p, out);
    if p.idx !in net.tunnel then ([p], table)
    else if !Paired(net, e) then ([], table)
    else if e in table then (if table[e].Busy? then [] else table[e].ports, table)
    else
      CutPorts(net, e);
      assert e in Left(net, table) && e !in Left(net, table[e := Busy]);
      var (ports, after) := WalkAll(net, table[e := Busy], FirstCut(net.conns, net, e), out);
      (ports, after[e := Done(ports)])
  }

  ghost function WalkAll(net: Net, table: map<End, Entry>, cut: seq<Port>, out: bool)
      : (r: (seq<Port>, map<End, Entry>))
    requires AllPorts(net, cut)
    ensures table.Keys <= r.1.Keys
    decreases Left(net, table), 1, |cut|
  {
    if cut == [] then ([], table)
    else
      var m := |cut| - 1;
      var (ports, mid) := WalkAll(net, table, cut[..m], out);
      assert Left(net, mid) <= Left(net, table);
      var (more, after) := Walk(net, mid, cut[m], out);
      (ports + more, after)
  }

  ghost predicate AllPorts(net: Net, cut: seq<Port>) {
    forall i :: 0 <= i < |cut| ==> cut[i] in PortsOf(net)
  }

  lemma CutPorts(net: Net, e: End)
    requires Paired(net, e)
    ensures AllPorts(net, FirstCut(net.conns, net, e))
  {
    var cut := FirstCut(net.conns, net, e);
    forall i | 0 <= i < |cut| ensures cut[i] in PortsOf(net) { CutMember(net, e, cut, i); }
  }

  lemma WalkReal(net: Net, table: map<End, Entry>, p: Port, out: bool)
    requires p in PortsOf(net)
    ensures p.idx !in net.tunnel ==> Walk(net, table, p, out) == ([p], table)
    ensures p.idx in net.tunnel && !Paired(net, End(p, out)) ==> Walk(net, table, p, out) == ([], table)
  {
  }

  lemma WalkKnown(net: Net, table: map<End, Entry>, e: End)
    requires NetOk(net) && Paired(net, e) && e.port in PortsOf(net) && e in table
    ensures Walk(net, table, e.port, e.out) == (if table[e].Busy? then [] else table[e].ports, table)
  {
    OtherInvolution(net, e);
    assert End(e.port, e.out) == e;
  }

  lemma WalkNew(net: Net, table: map<End, Entry>, e: End)
    requires NetOk(net) && Paired(net, e) && e.port in PortsOf(net) && e !in table
    ensures AllPorts(net, FirstCut(net.conns, net, e))
    ensures var (ports, after) := WalkAll(net, table[e := Busy], FirstCut(net.conns, net, e), e.out);
            Walk(net, table, e.port, e.out) == (ports, after[e := Done(ports)])
  {
    OtherInvolution(net, e);
    CutPorts(net, e);
    assert End(e.port, e.out) == e;
  }

  lemma WalkAllStart(net: Net, table: map<End, Entry>, cut: seq<Port>, out: bool)
    ensures AllPorts(net, cut[..0]) && WalkAll(net, table, cut[..0], out) == ([], table) && cut[..|cut|] == cut
  {
  }

  lemma WalkAllStep(net: Net, table: map<End, Entry>, cut: seq<Port>, i: nat, out: bool)
    requires i < |cut| && AllPorts(net, cut)
    ensures AllPorts(net, cut[..i]) && AllPorts(net, cut[..i + 1]) && cut[i] in PortsOf(net)
    ensures var (ports, mid) := WalkAll(net, table, cut[..i], out);
            var (more, after) := Walk(net, mid, cut[i], out);
            WalkAll(net, table, cut[..i + 1], out) == (ports + more, after)
  {
    assert cut[..i + 1][..i] == cut[..i];
  }

  ghost predicate EntryOk(t: TunnelEnd, table: map<End, Entry>) {
    && (t.expanded == 1 ==> t.end in table && table[t.end] == Busy)
    && (t.expanded == 2 ==> t.end in table && table[t.end] == Done(t.correspond))
  }

  /** The table holds what the ends do. */
  ghost predicate TableOk(ends: seq<TunnelEnd>, runs: seq<End>, table: map<End, Entry>) {
    && (forall e :: e in table <==> e in runs)
    && forall id :: 0 <= id < |ends| ==> EntryOk(ends[id], table)
  }

  lemma TableExtends(ends: seq<TunnelEnd>, ends': seq<TunnelEnd>, runs: seq<End>, table: map<End, Entry>)
    requires TableOk(ends, runs, table) && Extends(ends, ends')
    ensures TableOk(ends', runs, table)
  {
    forall id | 0 <= id < |ends'| ensures EntryOk(ends'[id], table) {
      if id >= |ends| { assert Fresh(ends'[id]); } else { assert EntryOk(ends[id], table); }
    }
  }

  lemma TableAt(net: Net, ends: seq<TunnelEnd>, tunnels: seq<seq<nat>>, runs: seq<End>, table: map<End, Entry>, id: nat)
    requires ExpandOk(net, ends, tunnels, runs) && TableOk(ends, runs, table) && id < |ends| && ends[id].other >= 0
    ensures NetOk(net) && Paired(net, ends[id].end) && 0 <= ends[id].expanded <= 2
    ensures ends[id].end in table <==> ends[id].expanded != 0
    ensures ends[id].expanded == 1 ==> table[ends[id].end] == Busy
    ensures ends[id].expanded == 2 ==> table[ends[id].end] == Done(ends[id].correspond)
  {
    hide Directory, Pairing, Templates, AbsentEmpty, NetOk, Sound, Complete, Clear, HasEnd;
    assert EndOk(net, ends[id]) && EntryOk(ends[id], table);
  }

  lemma TableSet(net: Net, ends: seq<TunnelEnd>, tunnels: seq<seq<nat>>, runs: seq<End>, table: map<End, Entry>,
                 id: nat, t: TunnelEnd)
    requires ExpandOk(net, ends, tunnels, runs) && TableOk(ends, runs, table) && id < |ends|
    requires t.end == ends[id].end && 1 <= t.expanded <= 2
    ensures var runs' := if ends[id].expanded == 0 then runs + [t.end] else runs;
            TableOk(ends[id := t], runs', table[t.end := if t.expanded == 1 then Busy else Done(t.correspond)])
  {
    hide Pairing, Templates, AbsentEmpty, NetOk, EndsOk, HasEnd, Listed, RowOk, RowsSorted;
    var table' := table[t.end := if t.expanded == 1 then Busy else Done(t.correspond)];
    var ends' := ends[id := t];
    forall k | 0 <= k < |ends| ensures EntryOk(ends'[k], table') {
      assert EntryOk(ends[k], table);
      if k != id { assert ends[k].end != ends[id].end; }
    }
  }

  lemma TableStart(net: Net, ends: seq<TunnelEnd>, tunnels: seq<seq<nat>>)
    requires ExpandOk(net, ends, tunnels, [])
    ensures TableOk(ends, [], map[])
  {
    hide Directory, Pairing, Templates, AbsentEmpty, NetOk, Sound, Complete, Clear, HasEnd;
    forall id | 0 <= id < |ends| ensures EntryOk(ends[id], map[]) {
      assert ends[id].end !in [];
    }
  }

  // ----- Declaring a compound's tunnels

  /** The graph with one more side declared. */
  ghost function Loosen(net: Net, idx: nat, out: bool): Net {
    net.(tunnel := net.tunnel + {idx},
         loose := if (idx, out) in net.pair then net.loose else net.loose + {(idx, out)})
  }

  /** The graph with input `a` and output `b` joined by a tunnel. */
  ghost function Join(net: Net, a: nat, b: nat): Net {
    net.(pair := net.pair[(a, false) := b][(b, true) := a], loose := net.loose - {(a, false), (b, true)})
  }

  ghost function FourSides(net: Net, e0: nat, e1: nat, e2: nat): Net {
    Loosen(Loosen(Loosen(Loosen(net, e0, false), e1, true), e2, false), e0, true)
  }

  /** The graph with compound `e0` and its pseudo-elements `e1` (input) and `e2` (output) declared:
      joined if none of the four sides was, and else left loose where they were not. */
  ghost function WithTunnels(net: Net, e0: nat, e1: nat, e2: nat): Net {
    if SidesFree(net, e0, e1, e2) then Join(Join(FourSides(net, e0, e1, e2), e0, e1), e2, e0)
    else FourSides(net, e0, e1, e2)
  }

  ghost predicate SidesFree(net: Net, e0: nat, e1: nat, e2: nat) {
    e0 != e1 && e1 != e2 && e0 != e2
    && (e0, false) !in net.pair && (e1, true) !in net.pair && (e2, false) !in net.pair && (e0, true) !in net.pair
  }

  ghost predicate SidesNew(net: Net, e0: nat, e1: nat, e2: nat) {
    !Declared(net, e0, false) && !Declared(net, e1, true) && !Declared(net, e2, false) && !Declared(net, e0, true)
  }

  ghost predicate SidesDeclared(net: Net, e0: nat, e1: nat, e2: nat) {
    Declared(net, e0, false) && Declared(net, e1, true) && Declared(net, e2, false) && Declared(net, e0, true)
  }

  lemma FourFacts(net: Net, e0: nat, e1: nat, e2: nat)
    requires e0 != e1 && e1 != e2 && e0 != e2
    ensures var net1 := Loosen(net, e0, false); var net2 := Loosen(net1, e1, true); var net3 := Loosen(net2, e2, false);
            && net1.pair == net2.pair == net3.pair == net.pair
            && (Declared(net1, e1, true) <==> Declared(net, e1, true))
            && (Declared(net2, e2, false) <==> Declared(net, e2, false))
            && (Declared(net3, e0, true) <==> Declared(net, e0, true))
            && FourSides(net, e0, e1, e2) == Loosen(net3, e0, true)
  {
  }

  lemma FourLoose(net: Net, e0: nat, e1: nat, e2: nat)
    requires SidesFree(net, e0, e1, e2)
    ensures var net4 := FourSides(net, e0, e1, e2); var net5 := Join(net4, e0, e1);
            && (e0, false) in net4.loose && (e1, true) in net4.loose
            && (e2, false) in net5.loose && (e0, true) in net5.loose
            && WithTunnels(net, e0, e1, e2) == Join(net5, e2, e0)
  {
  }

  /** The four new ends after pairing. */
  lemma JoinedTwice(ends: seq<TunnelEnd>, ends': seq<TunnelEnd>, t0: nat, t1: nat, t2: nat, t3: nat,
                    e0: nat, e1: nat, e2: nat)
    requires Extends(ends, ends') && t0 < |ends'| && t1 < |ends'| && t2 < |ends'| && t3 < |ends'|
    requires ends'[t0].end == End(Port(e0, 0), false) && ends'[t1].end == End(Port(e1, 0), true)
    requires ends'[t2].end == End(Port(e2, 0), false) && ends'[t3].end == End(Port(e0, 0), true)
    ensures var joined := Coupled(Coupled(ends', t0, t1), t2, t3); var n := |ends|;
            && Redeclared(ends, joined)
            && (|ends'| == n + 4 && t0 == n && t1 == n + 1 && t2 == n + 2 && t3 == n + 3 ==>
                 joined == ends + FourEnds(n, e0, e1, e2))
  {
    var joined, n := Coupled(Coupled(ends', t0, t1), t2, t3), |ends|;
    forall k | 0 <= k < |ends'| ensures joined[k] == ends'[k].(other := joined[k].other) {}
    forall k | n <= k < |ends'| ensures Fresh(joined[k]) {
      assert Fresh(ends'[k]);
    }
    if |ends'| == n + 4 && t0 == n && t1 == n + 1 && t2 == n + 2 && t3 == n + 3 {
      assert Fresh(ends'[n]) && Fresh(ends'[n + 1]) && Fresh(ends'[n + 2]) && Fresh(ends'[n + 3]);
      assert joined[n..] == FourEnds(n, e0, e1, e2);
      assert joined[..n] == ends;
    }
  }

  /** A compound none of whose sides was declared, in a graph without loose ends. */
  lemma WithNewTunnels(net: Net, e0: nat, e1: nat, e2: nat)
    requires SidesFree(net, e0, e1, e2) && net.loose == {}
    ensures WithTunnels(net, e0, e1, e2) == Net(net.conns, net.tunnel + {e0, e1, e2},
        net.pair[(e0, false) := e1][(e1, true) := e0][(e2, false) := e0][(e0, true) := e2], {})
  {
    var net' := WithTunnels(net, e0, e1, e2);
    assert net'.loose == {} && net'.tunnel == net.tunnel + {e0, e1, e2};
  }

  function FourEnds(n: nat, e0: nat, e1: nat, e2: nat): seq<TunnelEnd> {
    [TunnelEnd(End(Port(e0, 0), false), n + 1, [], 0), TunnelEnd(End(Port(e1, 0), true), n, [], 0),
     TunnelEnd(End(Port(e2, 0), false), n + 3, [], 0), TunnelEnd(End(Port(e0, 0), true), n + 2, [], 0)]
  }

  /** A port-0 end has a partner exactly if its side is in a tunnel. */
  lemma PartnerIs(net: Net, ends: seq<TunnelEnd>, id: nat)
    requires NetOk(net) && Pairing(net, ends) && id < |ends|
    ensures ends[id].other >= 0 <==> Paired(net, ends[id].end)
    ensures ends[id].other < 0 <==> LooseEnd(net, ends[id].end)
    ensures Declared(net, ends[id].end.port.idx, ends[id].end.out)
  {
    assert LinkOk(net, ends, id);
    assert SideOk(net, ends[id].end.port.idx, ends[id].end.out);
  }

  ghost function WithEnd(ends: seq<TunnelEnd>, e: End): seq<TunnelEnd> {
    if HasEnd(ends, e) then ends else ends + [TunnelEnd(e, -1, [], 0)]
  }

  lemma DeclaredHasEnd(net: Net, ends: seq<TunnelEnd>, idx: nat, out: bool)
    requires NetOk(net) && Pairing(net, ends) && Templates(net, ends)
    ensures HasEnd(ends, End(Port(idx, 0), out)) <==> Declared(net, idx, out)
  {
    if HasEnd(ends, End(Port(idx, 0), out)) {
      var id :| 0 <= id < |ends| && ends[id].end == End(Port(idx, 0), out);
      PartnerIs(net, ends, id);
    }
  }

  lemma LoosenNet(net: Net, idx: nat, out: bool)
    requires NetOk(net)
    ensures NetOk(Loosen(net, idx, out))
  {
    forall i: nat, o ensures SideOk(Loosen(net, idx, out), i, o) { assert SideOk(net, i, o); }
  }

  lemma LoosenTunnels(net: Net, ends: seq<TunnelEnd>, idx: nat, out: bool)
    requires NetOk(net) && Pairing(net, ends) && Templates(net, ends)
    ensures var ends' := WithEnd(ends, End(Port(idx, 0), out));
            Pairing(Loosen(net, idx, out), ends') && Templates(Loosen(net, idx, out), ends')
  {
    var e := End(Port(idx, 0), out);
    var net', ends' := Loosen(net, idx, out), WithEnd(ends, e);
    DeclaredHasEnd(net, ends, idx, out);
    forall id | 0 <= id < |ends'| ensures LinkOk(net', ends', id) {
      if id < |ends| { assert LinkOk(net, ends, id); }
    }
    forall i: nat, o | Declared(net', i, o) ensures HasEnd(ends', End(Port(i, 0), o)) {
      if (i, o) != (idx, out) { assert Declared(net, i, o); }
      HasEndAppend(ends, TunnelEnd(e, -1, [], 0), End(Port(i, 0), o));
    }
  }

  lemma JoinNet(net: Net, a: nat, b: nat)
    requires NetOk(net) && (a, false) in net.loose && (b, true) in net.loose
    ensures NetOk(Join(net, a, b))
  {
    assert SideOk(net, a, false) && SideOk(net, b, true);
    forall i: nat, o ensures SideOk(Join(net, a, b), i, o) {
      assert SideOk(net, i, o);
      if (i, o) in net.pair { assert SideOk(net, net.pair[(i, o)], !o); }
    }
  }

  ghost function Coupled(ends: seq<TunnelEnd>, ta: nat, tb: nat): seq<TunnelEnd>
    requires ta < |ends| && tb < |ends|
  {
    ends[ta := ends[ta].(other := tb)][tb := ends[tb].(other := ta)]
  }

  lemma JoinTunnels(net: Net, ends: seq<TunnelEnd>, tunnels: seq<seq<nat>>, ta: nat, tb: nat, a: nat, b: nat)
    requires TunnelsOk(net, ends, tunnels) && (a, false) in net.loose && (b, true) in net.loose
    requires ta < |ends| && tb < |ends|
    requires ends[ta].end == End(Port(a, 0), false) && ends[tb].end == End(Port(b, 0), true)
    ensures TunnelsOk(Join(net, a, b), Coupled(ends, ta, tb), tunnels)
  {
    var net', ends' := Join(net, a, b), Coupled(ends, ta, tb);
    JoinNet(net, a, b);
    hide Templates;
    assert forall k :: 0 <= k < |ends| ==> ends'[k].end == ends[k].end;
    DirectorySame(ends, ends', tunnels);
    forall k | 0 <= k < |ends'| ensures LinkOk(net', ends', k) {
      JoinLink(net, ends, tunnels, ta, tb, a, b, k);
    }
    JoinTemplates(net, ends, a, b);
    TemplatesExtend(net', ends, ends');
  }

  lemma JoinTemplates(net: Net, ends: seq<TunnelEnd>, a: nat, b: nat)
    requires Templates(net, ends) && (a, false) in net.loose && (b, true) in net.loose
    ensures Templates(Join(net, a, b), ends)
  {
    forall i: nat, o | Declared(Join(net, a, b), i, o) ensures HasEnd(ends, End(Port(i, 0), o)) {
      assert Declared(net, i, o);
    }
  }

  lemma JoinLink(net: Net, ends: seq<TunnelEnd>, tunnels: seq<seq<nat>>, ta: nat, tb: nat, a: nat, b: nat, k: nat)
    requires TunnelsOk(net, ends, tunnels) && (a, false) in net.loose && (b, true) in net.loose
    requires ta < |ends| && tb < |ends| && k < |ends|
    requires ends[ta].end == End(Port(a, 0), false) && ends[tb].end == End(Port(b, 0), true)
    ensures LinkOk(Join(net, a, b), Coupled(ends, ta, tb), k)
  {
    hide Templates, RowsSorted, Listed, RowOk;
    assert SideOk(net, a, false) && SideOk(net, b, true);
    assert LinkOk(net, ends, k);
    assert k < ta ==> ends[k].end != ends[ta].end;
    assert ta < k ==> ends[ta].end != ends[k].end;
    assert k < tb ==> ends[k].end != ends[tb].end;
    assert tb < k ==> ends[tb].end != ends[k].end;
  }

  // ----- First-level expansion

  lemma FirstCutSnoc(conns: seq<Connection>, n: nat, net: Net, e: End)
    requires Paired(net, e) && n < |conns|
    ensures FirstCut(conns[..n + 1], net, e) == FirstCut(conns[..n], net, e)
            + (if Side(conns[n], !e.out) == Other(net, e).port then [Side(conns[n], e.out)] else [])
  {
    assert conns[..n + 1][..n] == conns[..n];
  }

  lemma MatchOther(net: Net, e: End, p: Port)
    requires NetOk(net) && Paired(net, e)
    ensures p == Other(net, e).port <==> Paired(net, End(p, !e.out)) && Other(net, End(p, !e.out)) == e
  {
    OtherInvolution(net, e);
    if Paired(net, End(p, !e.out)) { OtherInvolution(net, End(p, !e.out)); }
  }

  /** The first cut of `e` after `nOut` connections were seen from output ends, `nIn` from input ends. */
  ghost function CutSoFar(net: Net, e: End, nOut: nat, nIn: nat): seq<Port>
    requires Paired(net, e) && nOut <= |net.conns| && nIn <= |net.conns|
  {
    FirstCut(net.conns[..if e.out then nOut else nIn], net, e)
  }

  ghost predicate CutEnd(net: Net, t: TunnelEnd, nOut: nat, nIn: nat)
    requires nOut <= |net.conns| && nIn <= |net.conns|
  {
    if t.other < 0 then Fresh(t)
    else Paired(net, t.end) && t.expanded == 0 && t.correspond == CutSoFar(net, t.end, nOut, nIn)
  }

  ghost predicate CutAt(net: Net, ends: seq<TunnelEnd>, nOut: nat, nIn: nat)
    requires nOut <= |net.conns| && nIn <= |net.conns|
  {
    && (forall id :: 0 <= id < |ends| ==> CutEnd(net, ends[id], nOut, nIn))
    && (forall e :: Paired(net, e) && !HasEnd(ends, e) ==> CutSoFar(net, e, nOut, nIn) == [])
  }

  lemma CutAtExtends(net: Net, ends: seq<TunnelEnd>, ends': seq<TunnelEnd>, tunnels: seq<seq<nat>>, nOut: nat, nIn: nat)
    requires nOut <= |net.conns| && nIn <= |net.conns|
    requires CutAt(net, ends, nOut, nIn) && Extends(ends, ends') && TunnelsOk(net, ends', tunnels)
    ensures CutAt(net, ends', nOut, nIn)
  {
    hide CutSoFar, NetOk, Templates;
    assert forall k :: 0 <= k < |ends| ==> ends[k] == ends'[k];
    forall id | 0 <= id < |ends'| ensures CutEnd(net, ends'[id], nOut, nIn) {
      assert LinkOk(net, ends', id);
      if id < |ends| { assert CutEnd(net, ends[id], nOut, nIn); } else { assert Fresh(ends'[id]); }
    }
    forall e | HasEnd(ends, e) ensures HasEnd(ends', e) {
      var id :| 0 <= id < |ends| && ends[id].end == e;
      assert ends'[id].end == e;
    }
  }

  /** Seeing connection `n` from its `out` side changes the cut of one end only: the far end of
      the tunnel that side enters, if it enters one. */
  lemma CutSoFarStep(net: Net, nOut: nat, nIn: nat, out: bool, e: End)
    requires NetOk(net) && Paired(net, e) && nOut <= |net.conns| && nIn <= |net.conns|
    requires var n := if out then nIn else nOut; n < |net.conns|
    ensures var n := if out then nIn else nOut;
            var p := Side(net.conns[n], out);
            CutSoFar(net, e, if out then nOut else nOut + 1, if out then nIn + 1 else nIn)
            == CutSoFar(net, e, nOut, nIn)
               + if Paired(net, End(p, out)) && Other(net, End(p, out)) == e then [Side(net.conns[n], !out)] else []
  {
    var n := if out then nIn else nOut;
    if e.out != out {
      FirstCutSnoc(net.conns, n, net, e);
      MatchOther(net, e, Side(net.conns[n], out));
    }
  }

  lemma CutAtStep(net: Net, ends: seq<TunnelEnd>, ends': seq<TunnelEnd>, nOut: nat, nIn: nat, out: bool)
    requires NetOk(net) && nOut <= |net.conns| && nIn <= |net.conns|
    requires CutAt(net, ends, nOut, nIn)
    requires var n := if out then nIn else nOut; n < |net.conns|
    requires var n := if out then nIn else nOut;
             var p, far := Side(net.conns[n], out), Side(net.conns[n], !out);
             if Paired(net, End(p, out)) then
               exists o :: 0 <= o < |ends| && ends[o].end == Other(net, End(p, out))
                           && (forall k :: 0 <= k < |ends| && k != o ==> ends[k].end != ends[o].end)
                           && ends[o].other >= 0 && ends'
                               == ends[o := ends[o].(correspond := ends[o].correspond + [far])]
             else ends' == ends
    ensures CutAt(net, ends', if out then nOut else nOut + 1, if out then nIn + 1 else nIn)
  {
    hide CutSoFar, NetOk;
    forall e | Paired(net, e) && !HasEnd(ends', e)
      ensures CutSoFar(net, e, if out then nOut else nOut + 1, if out then nIn + 1 else nIn) == []
    {
      SameEnds(ends, ends', e);
      CutSoFarStep(net, nOut, nIn, out, e);
    }
    forall id | 0 <= id < |ends'|
      ensures CutEnd(net, ends'[id], if out then nOut else nOut + 1, if out then nIn + 1 else nIn)
    {
      assert CutEnd(net, ends[id], nOut, nIn);
      if ends[id].other >= 0 { CutSoFarStep(net, nOut, nIn, out, ends[id].end); }
    }
  }

  lemma CutAtStart(net: Net, ends: seq<TunnelEnd>, tunnels: seq<seq<nat>>)
    requires TunnelsOk(net, ends, tunnels) && forall id :: 0 <= id < |ends| ==> Fresh(ends[id])
    ensures CutAt(net, ends, 0, 0)
  {
    forall id | 0 <= id < |ends| ensures CutEnd(net, ends[id], 0, 0) {
      assert LinkOk(net, ends, id) && Fresh(ends[id]);
    }
  }

  lemma CutAtEnd(net: Net, ends: seq<TunnelEnd>, tunnels: seq<seq<nat>>)
    requires TunnelsOk(net, ends, tunnels) && CutAt(net, ends, |net.conns|, |net.conns|)
    ensures ExpandOk(net, ends, tunnels, [])
    ensures forall id :: 0 <= id < |ends| ==> ends[id].expanded != 1
  {
    hide Directory, Templates, Pairing, NetOk;
    assert net.conns[..|net.conns|] == net.conns;
    forall id | 0 <= id < |ends| ensures EndOk(net, ends[id]) && ends[id].expanded == 0 {
      assert CutEnd(net, ends[id], |net.conns|, |net.conns|);
    }
  }

  // ----- Routes and reachability

  lemma CutConnection(net: Net, p: Port, out: bool, x: Port) returns (d: Connection)
    requires Cut(net, p, out, x)
    ensures d in net.conns && Side(d, !out) == Other(net, End(p, out)).port && Side(d, out) == x
  {
    FirstCutMembers(net.conns, net, End(p, out), x);
    d :| d in net.conns && Side(d, !out) == Other(net, End(p, out)).port && Side(d, out) == x;
  }

  lemma ConsRoute(net: Net, c: Connection, r: seq<Connection>)
    requires c in net.conns && Route(net, r) && Joined(net, c, r[0])
    ensures Route(net, [c] + r)
  {
    var s := [c] + r;
    forall i | 0 <= i < |s| - 1 ensures Joined(net, s[i], s[i + 1]) {
      if i > 0 { assert s[i] == r[i - 1] && s[i + 1] == r[i]; }
    }
  }

  lemma SnocRoute(net: Net, r: seq<Connection>, c: Connection)
    requires c in net.conns && Route(net, r) && Joined(net, r[|r| - 1], c)
    ensures Route(net, r + [c])
  {
  }

  /** Entering the tunnel at `p` as an output means some connection brought the traffic there. */
  lemma JoinedBack(net: Net, d: Connection, c: Connection)
    requires NetOk(net) && Paired(net, End(c.from, true)) && d.to == Other(net, End(c.from, true)).port
    ensures Joined(net, d, c)
  {
    OtherInvolution(net, End(c.from, true));
  }

  lemma {:induction false} ForwardRoute(net: Net, n: nat, c: Connection, i: Port) returns (r: seq<Connection>)
    requires NetOk(net) && c in net.conns && ReachesIn(net, n, c.to, false, i)
    ensures Route(net, r) && r[0] == c && r[|r| - 1].to == i
    decreases n
  {
    r := [c];
    if c.to.idx in net.tunnel {
      var x :| Cut(net, c.to, false, x) && ReachesIn(net, n - 1, x, false, i);
      var d := CutConnection(net, c.to, false, x);
      var tail := ForwardRoute(net, n - 1, d, i);
      ConsRoute(net, c, tail);
      r := [c] + tail;
    }
  }

  lemma {:induction false} BackwardRoute(net: Net, n: nat, c: Connection, o: Port, tail: seq<Connection>)
      returns (r: seq<Connection>)
    requires NetOk(net) && ReachesIn(net, n, c.from, true, o)
    requires Route(net, tail) && tail[0] == c
    ensures Route(net, r) && r[0].from == o && r[|r| - 1] == tail[|tail| - 1]
    decreases n
  {
    r := tail;
    if c.from.idx in net.tunnel {
      var x :| Cut(net, c.from, true, x) && ReachesIn(net, n - 1, x, true, o);
      var d := CutConnection(net, c.from, true, x);
      JoinedBack(net, d, c);
      ConsRoute(net, d, tail);
      r := BackwardRoute(net, n - 1, d, o, [d] + tail);
    }
  }

  /** Whatever one connection expands to on both sides is joined by a route. */
  lemma ExpansionIsRoute(net: Net, c: Connection, o: Port, i: Port)
    requires NetOk(net) && c in net.conns
    requires Reaches(net, c.from, true, o) && Reaches(net, c.to, false, i)
    ensures exists r :: RouteBetween(net, r, o, i)
  {
    var n: nat :| ReachesIn(net, n, c.to, false, i);
    var tail := ForwardRoute(net, n, c, i);
    var m: nat :| ReachesIn(net, m, c.from, true, o);
    var r := BackwardRoute(net, m, c, o, tail);
    assert RouteBetween(net, r, o, i);
  }

  lemma {:induction false} RouteReaches(net: Net, r: seq<Connection>)
    requires NetOk(net) && Route(net, r) && r[|r| - 1].to.idx !in net.tunnel
    ensures Reaches(net, r[0].to, false, r[|r| - 1].to)
    decreases |r|
  {
    if |r| == 1 {
      assert ReachesIn(net, 0, r[0].to, false, r[0].to);
    } else {
      var tail := r[1..];
      assert Route(net, tail) by {
        forall i | 0 <= i < |tail| - 1 ensures Joined(net, tail[i], tail[i + 1]) {
          assert Joined(net, r[i + 1], r[i + 2]);
        }
      }
      RouteReaches(net, tail);
      assert Joined(net, r[0], r[1]);
      FirstCutMembers(net.conns, net, End(r[0].to, false), r[1].to);
      assert Cut(net, r[0].to, false, r[1].to);
      ReachesStep(net, r[0].to, false, r[1].to, r[|r| - 1].to);
    }
  }

  lemma {:induction false} StepsForward(net: Net, n: nat, p: Port, q: Port) returns (r: seq<Connection>)
    requires NetOk(net) && n > 0 && StepsTo(net, n, p, false, q)
    ensures Route(net, r) && Paired(net, End(p, false))
    ensures r[0].from == Other(net, End(p, false)).port && r[|r| - 1].to == q
    decreases n
  {
    var x :| Cut(net, p, false, x) && StepsTo(net, n - 1, x, false, q);
    var d := CutConnection(net, p, false, x);
    r := [d];
    if n > 1 {
      var tail := StepsForward(net, n - 1, x, q);
      ConsRoute(net, d, tail);
      r := [d] + tail;
    }
  }

  lemma {:induction false} StepsBackward(net: Net, n: nat, p: Port, q: Port) returns (r: seq<Connection>)
    requires NetOk(net) && n > 0 && StepsTo(net, n, p, true, q)
    ensures Route(net, r) && Paired(net, End(p, true))
    ensures r[|r| - 1].to == Other(net, End(p, true)).port && r[0].from == q
    decreases n
  {
    var x :| Cut(net, p, true, x) && StepsTo(net, n - 1, x, true, q);
    var d := CutConnection(net, p, true, x);
    r := [d];
    if n > 1 {
      var front := StepsBackward(net, n - 1, x, q);
      JoinedBack(net, front[|front| - 1], d);
      SnocRoute(net, front, d);
      r := front + [d];
    }
  }

  lemma NoCycleIsAcyclic(net: Net)
    requires NetOk(net) && NoTunnelCycle(net)
    ensures Acyclic(net)
  {
    forall p, out ensures !Ahead(net, p, out, p) {
      if Ahead(net, p, out, p) {
        var n: nat :| n > 0 && StepsTo(net, n, p, out, p);
        var r: seq<Connection>;
        if out {
          r := StepsBackward(net, n, p, p);
          JoinedBack(net, r[|r| - 1], r[0]);
        } else {
          r := StepsForward(net, n, p, p);
        }
        assert false;
      }
    }
  }

  // ----- The result of flattening

  /** Elements that made it into the router; tunnels never do. */
  predicate Live(routerId: seq<int>, p: Port) {
    p.idx < |routerId| && routerId[p.idx] >= 0
  }

  ghost predicate IdsOk(net: Net, routerId: seq<int>) {
    && (forall idx :: idx in net.tunnel && idx < |routerId| ==> routerId[idx] < 0)
    && (forall c :: c in net.conns ==> c.from.idx < |routerId| && c.to.idx < |routerId|)
  }

  ghost predicate Linked(net: Net, o: Port, i: Port) {
    exists r :: RouteBetween(net, r, o, i)
  }

  /** Only routes are wired. */
  ghost predicate WiresSound(net: Net, routerId: seq<int>, wires: seq<Connection>) {
    forall w :: w in wires && Live(routerId, w.from) && Live(routerId, w.to) ==> Linked(net, w.from, w.to)
  }

  /** Connection `c` stands for one from `o` to `i`, and meets no cycle on its ways there. */
  ghost predicate Crosses(net: Net, c: Connection, o: Port, i: Port) {
    && Clear(net, c.from, true) && Clear(net, c.to, false)
    && Reaches(net, c.from, true, o) && Reaches(net, c.to, false, i)
  }

  ghost predicate Assured(net: Net, o: Port, i: Port) {
    exists c :: c in net.conns && Crosses(net, c, o, i)
  }

  /** The first `n` connections have contributed all pairs they stand for. */
  ghost predicate Contributed(net: Net, routerId: seq<int>, wires: seq<Connection>, n: nat)
    requires n <= |net.conns|
  {
    forall k, o, i :: 0 <= k < n && Crosses(net, net.conns[k], o, i) && Live(routerId, o) && Live(routerId, i)
      && !(Live(routerId, net.conns[k].from) && Live(routerId, net.conns[k].to))
      ==> Connection(o, i) in wires
  }

  /** A connection with an end outside the router contributes exactly the pairs of the ports
      its two ends stand for. */
  ghost predicate PairsOf(routerId: seq<int>, from: seq<Port>, to: seq<Port>, wires: seq<Connection>) {
    forall w :: w in wires <==> w.from in from && w.to in to && Live(routerId, w.from) && Live(routerId, w.to)
  }

  /** The connections from one port to the live ones of others, in order. */
  function Row(from: Port, to: seq<Port>, routerId: seq<int>): seq<Connection> {
    if to == [] then []
    else
      var m := |to| - 1;
      Row(from, to[..m], routerId) + if Live(routerId, to[m]) then [Connection(from, to[m])] else []
  }

  /** All live pairs, in order. */
  function Product(from: seq<Port>, to: seq<Port>, routerId: seq<int>): seq<Connection> {
    if from == [] then []
    else
      var m := |from| - 1;
      Product(from[..m], to, routerId) + if Live(routerId, from[m]) then Row(from[m], to, routerId) else []
  }

  function LiveOf(all: seq<Connection>, routerId: seq<int>): seq<Connection> {
    if all == [] then []
    else
      var m := |all| - 1;
      LiveOf(all[..m], routerId)
      + if Live(routerId, all[m].from) && Live(routerId, all[m].to) then [all[m]] else []
  }

  /** What the first `n` connections add, and what is known of the tunnel ends then. */
  ghost function Added(net: Net, routerId: seq<int>, n: nat): (seq<Connection>, map<End, Entry>)
    requires n <= |net.conns|
  {
    if n == 0 then ([], map[])
    else
      var (wires, table) := Added(net, routerId, n - 1);
      var c := net.conns[n - 1];
      if Live(routerId, c.from) && Live(routerId, c.to) then (wires, table)
      else
        var (more, after) := AddedBy(net, routerId, table, c);
        (wires + more, after)
  }

  ghost function AddedBy(net: Net, routerId: seq<int>, table: map<End, Entry>, c: Connection)
      : (seq<Connection>, map<End, Entry>)
    requires c in net.conns
  {
    var (from, mid) := Walk(net, table, c.from, true);
    var (to, after) := Walk(net, mid, c.to, false);
    (Product(from, to, routerId), after)
  }

  /** The connections of the router, each as often and in the order in which they are made. */
  ghost function Wires(net: Net, routerId: seq<int>): seq<Connection> {
    LiveOf(net.conns + Added(net, routerId, |net.conns|).0, routerId)
  }

  lemma RowStep(from: Port, to: seq<Port>, t: nat, routerId: seq<int>)
    requires t < |to|
    ensures Row(from, to[..t + 1], routerId)
        == Row(from, to[..t], routerId) + if Live(routerId, to[t]) then [Connection(from, to[t])] else []
  {
    assert to[..t + 1][..t] == to[..t];
  }

  lemma ProductStep(from: seq<Port>, to: seq<Port>, f: nat, routerId: seq<int>)
    requires f < |from|
    ensures Product(from[..f + 1], to, routerId)
        == Product(from[..f], to, routerId) + if Live(routerId, from[f]) then Row(from[f], to, routerId) else []
  {
    assert from[..f + 1][..f] == from[..f];
  }

  lemma LiveOfStep(all: seq<Connection>, k: nat, routerId: seq<int>)
    requires k < |all|
    ensures LiveOf(all[..k + 1], routerId) == LiveOf(all[..k], routerId)
        + if Live(routerId, all[k].from) && Live(routerId, all[k].to) then [all[k]] else []
  {
    assert all[..k + 1][..k] == all[..k];
  }

  /** A row holds exactly the live connections from its port. */
  lemma {:induction false} RowMembers(from: Port, to: seq<Port>, routerId: seq<int>, w: Connection)
    ensures w in Row(from, to, routerId) <==> w.from == from && w.to in to && Live(routerId, w.to)
  {
    if to != [] {
      RowMembers(from, to[..|to| - 1], routerId, w);
      assert to == to[..|to| - 1] + [to[|to| - 1]];
    }
  }

  lemma {:induction false} ProductMembers(from: seq<Port>, to: seq<Port>, routerId: seq<int>, w: Connection)
    ensures w in Product(from, to, routerId) <==>
      w.from in from && w.to in to && Live(routerId, w.from) && Live(routerId, w.to)
  {
    hide Row, Live;
    if from != [] {
      var m := |from| - 1;
      ProductMembers(from[..m], to, routerId, w);
      RowMembers(from[m], to, routerId, w);
      assert from == from[..m] + [from[m]];
    }
  }

  lemma ProductPairs(from: seq<Port>, to: seq<Port>, routerId: seq<int>)
    ensures PairsOf(routerId, from, to, Product(from, to, routerId))
  {
    hide Product, Live;
    forall w ensures w in Product(from, to, routerId) <==>
        w.from in from && w.to in to && Live(routerId, w.from) && Live(routerId, w.to)
    {
      ProductMembers(from, to, routerId, w);
    }
  }

  lemma {:induction false} LiveOfMembers(all: seq<Connection>, routerId: seq<int>, w: Connection)
    ensures w in LiveOf(all, routerId) <==> w in all && Live(routerId, w.from) && Live(routerId, w.to)
  {
    hide Live;
    if all != [] {
      var m := |all| - 1;
      LiveOfMembers(all[..m], routerId, w);
      assert all == all[..m] + [all[m]];
    }
  }

  lemma AddedStart(net: Net, routerId: seq<int>)
    ensures Added(net, routerId, 0) == ([], map[]) && net.conns + [] == net.conns
  {
  }

  lemma AddedSkip(net: Net, routerId: seq<int>, k: nat)
    requires k < |net.conns| && Live(routerId, net.conns[k].from) && Live(routerId, net.conns[k].to)
    ensures Added(net, routerId, k + 1) == Added(net, routerId, k)
  {
  }

  lemma AddedMore(net: Net, routerId: seq<int>, k: nat, more: seq<Connection>, after: map<End, Entry>)
    requires k < |net.conns| && !(Live(routerId, net.conns[k].from) && Live(routerId, net.conns[k].to))
    requires (more, after) == AddedBy(net, routerId, Added(net, routerId, k).1, net.conns[k])
    ensures Added(net, routerId, k + 1) == (Added(net, routerId, k).0 + more, after)
    ensures net.conns + Added(net, routerId, k + 1).0 == net.conns + Added(net, routerId, k).0 + more
  {
    hide AddedBy;
  }

  lemma AddedSound(net: Net, routerId: seq<int>, c: Connection, from: seq<Port>, to: seq<Port>, wires: seq<Connection>,
      more: seq<Connection>)
    requires NetOk(net) && c in net.conns && WiresSound(net, routerId, wires)
    requires Sound(net, c.from, true, from) && Sound(net, c.to, false, to)
    requires PairsOf(routerId, from, to, more)
    ensures WiresSound(net, routerId, wires + more)
  {
    forall w | w in wires + more && Live(routerId, w.from) && Live(routerId, w.to) ensures Linked(net, w.from, w.to) {
      if w !in wires {
        ExpansionIsRoute(net, c, w.from, w.to);
      }
    }
  }

  lemma AddedComplete(net: Net, routerId: seq<int>, n: nat, from: seq<Port>, to: seq<Port>, wires: seq<Connection>,
      more: seq<Connection>)
    requires n < |net.conns| && Contributed(net, routerId, wires, n)
    requires Clear(net, net.conns[n].from, true) ==> Complete(net, net.conns[n].from, true, from)
    requires Clear(net, net.conns[n].to, false) ==> Complete(net, net.conns[n].to, false, to)
    requires PairsOf(routerId, from, to, more)
    ensures Contributed(net, routerId, wires + more, n + 1)
  {
    hide Clear, Reaches, Live;
    forall k, o, i | 0 <= k < n + 1 && Crosses(net, net.conns[k], o, i) && Live(routerId, o) && Live(routerId, i)
      && !(Live(routerId, net.conns[k].from) && Live(routerId, net.conns[k].to))
      ensures Connection(o, i) in wires + more
    {
      if k == n { assert Connection(o, i) in more; }
    }
  }

  /** Every assured pair of live elements is wired once all connections have contributed. */
  lemma AssuredWired(net: Net, routerId: seq<int>, wires: seq<Connection>, o: Port, i: Port)
    requires NetOk(net) && IdsOk(net, routerId)
    requires net.conns <= wires && Contributed(net, routerId, wires, |net.conns|)
    requires Live(routerId, o) && Live(routerId, i) && Assured(net, o, i)
    ensures Connection(o, i) in wires
  {
    var c :| c in net.conns && Crosses(net, c, o, i);
    var k :| 0 <= k < |net.conns| && net.conns[k] == c;
    assert wires[k] == c;
    if Live(routerId, c.from) && Live(routerId, c.to) {
      OnlyItself(net, c.from, true, o);
      OnlyItself(net, c.to, false, i);
    }
  }

  lemma OnlyItself(net: Net, p: Port, out: bool, q: Port)
    requires p.idx !in net.tunnel && Reaches(net, p, out, q)
    ensures p == q
  {
  }

  /** The start of a route is found by going back from any connection on it. */
  lemma {:induction false} RouteReachesBack(net: Net, r: seq<Connection>)
    requires NetOk(net) && Route(net, r) && r[0].from.idx !in net.tunnel
    ensures Reaches(net, r[|r| - 1].from, true, r[0].from)
    decreases |r|
  {
    var m := |r| - 1;
    if m == 0 {
      assert ReachesIn(net, 0, r[0].from, true, r[0].from);
    } else {
      var front := r[..m];
      assert Route(net, front) by {
        forall i | 0 <= i < |front| - 1 ensures Joined(net, front[i], front[i + 1]) {
          assert Joined(net, r[i], r[i + 1]);
        }
      }
      RouteReachesBack(net, front);
      assert Joined(net, r[m - 1], r[m]);
      OtherInvolution(net, End(r[m - 1].to, false));
      FirstCutMembers(net.conns, net, End(r[m].from, true), r[m - 1].from);
      assert Cut(net, r[m].from, true, r[m - 1].from);
      ReachesStep(net, r[m].from, true, r[m - 1].from, r[0].from);
    }
  }

  lemma RoutePart(net: Net, r: seq<Connection>, a: nat, b: nat)
    requires Route(net, r) && a < b <= |r|
    ensures Route(net, r[a..b])
  {
    var part := r[a..b];
    forall i | 0 <= i < |part| - 1 ensures Joined(net, part[i], part[i + 1]) {
      var k := a + i;
      assert Joined(net, r[k], r[k + 1]);
    }
  }

  /** A route is connected if some connection on it has no cycle behind it and none ahead. */
  lemma RouteAssured(net: Net, r: seq<Connection>, o: Port, i: Port, k: nat)
    requires NetOk(net) && RouteBetween(net, r, o, i) && o.idx !in net.tunnel && i.idx !in net.tunnel
    requires k < |r| && Clear(net, r[k].from, true) && Clear(net, r[k].to, false)
    ensures Assured(net, o, i)
  {
    hide Clear, Reaches;
    RoutePart(net, r, 0, k + 1);
    RoutePart(net, r, k, |r|);
    RouteReachesBack(net, r[0..k + 1]);
    RouteReaches(net, r[k..]);
    assert r[k..|r|] == r[k..];
    assert r[k] in net.conns && Crosses(net, r[k], o, i);
  }

  /** Without cycles every route between live elements is assured. */
  lemma RouteWired(net: Net, routerId: seq<int>, o: Port, i: Port)
    requires NetOk(net) && IdsOk(net, routerId) && NoTunnelCycle(net)
    requires Live(routerId, o) && Live(routerId, i) && Linked(net, o, i)
    ensures Assured(net, o, i)
  {
    hide Clear;
    var r: seq<Connection> :| RouteBetween(net, r, o, i);
    assert r[0] in net.conns && o.idx !in net.tunnel && i.idx !in net.tunnel;
    NoCycleIsAcyclic(net);
    AcyclicClear(net, r[0].from, true);
    AcyclicClear(net, r[0].to, false);
    RouteAssured(net, r, o, i, 0);
  }

  lemma InitialSound(net: Net, routerId: seq<int>)
    ensures WiresSound(net, routerId, net.conns)
  {
    forall w | w in net.conns ensures Linked(net, w.from, w.to) {
      assert RouteBetween(net, [w], w.from, w.to);
    }
  }

  ghost predicate SidesJoined(net: Net, c: Connection) {
    (c.from.idx, true) !in net.loose && (c.to.idx, false) !in net.loose
  }

  lemma LooseSides(net: Net, c: Connection)
    requires c in net.conns
    ensures SidesJoined(net, c) <==>
        (Side(c, true).idx, true) !in net.loose && (Side(c, false).idx, false) !in net.loose
    ensures NoLooseSide(net) ==> SidesJoined(net, c)
  {
    SideIs(net, c);
    hide IsSide;
  }

  lemma AllSidesJoined(net: Net)
    requires forall k :: 0 <= k < |net.conns| ==> SidesJoined(net, net.conns[k])
    ensures NoLooseSide(net)
  {
    forall p, out | IsSide(net, p, out) ensures (p.idx, out) !in net.loose {
      var c :| c in net.conns && Side(c, out) == p;
      assert SidesJoined(net, c);
    }
  }

  /** Neither side of the connection makes the source follow a null pointer. */
  ghost predicate Harmless(net: Net, c: Connection) {
    !FollowsNull(net, c.from, true) && !FollowsNull(net, c.to, false)
  }

  lemma AllHarmless(net: Net)
    requires forall k :: 0 <= k < |net.conns| ==> Harmless(net, net.conns[k])
    ensures Safe(net)
  {
    hide FollowsNull;
    forall p, out | IsSide(net, p, out) ensures !FollowsNull(net, p, out) {
      var c :| c in net.conns && Side(c, out) == p;
      assert Harmless(net, c);
    }
  }

  lemma LiveHarmless(net: Net, routerId: seq<int>, c: Connection)
    requires NetOk(net) && IdsOk(net, routerId) && Live(routerId, c.from) && Live(routerId, c.to)
    ensures Harmless(net, c)
  {
    SideFacts(net, c.from.idx, true);
    SideFacts(net, c.from.idx, false);
    SideFacts(net, c.to.idx, true);
    SideFacts(net, c.to.idx, false);
  }

  lemma SideFacts(net: Net, idx: nat, out: bool)
    requires NetOk(net)
    ensures Declared(net, idx, out) ==> idx in net.tunnel
    ensures !((idx, out) in net.loose && (idx, out) in net.pair)
  {
    assert SideOk(net, idx, out);
  }

  /** A partner has a partner. */
  lemma FarEnd(net: Net, ends: seq<TunnelEnd>, tunnels: seq<seq<nat>>, id: nat)
    requires TunnelsOk(net, ends, tunnels) && id < |ends| && ends[id].other >= 0
    ensures ends[id].other < |ends| && ends[ends[id].other].other >= 0
    ensures Paired(net, ends[id].end) && ends[ends[id].other].end == Other(net, ends[id].end)
  {
    TemplateLink(net, ends, id);
    OtherInvolution(net, ends[id].end);
    PartnerIs(net, ends, ends[id].other);
  }

  /** Ends were added, and the old ones keep everything but their partner. */
  ghost predicate Redeclared(ends: seq<TunnelEnd>, ends': seq<TunnelEnd>) {
    && |ends| <= |ends'|
    && (forall id :: 0 <= id < |ends| ==> ends'[id] == ends[id].(other := ends'[id].other))
    && (forall id :: |ends| <= id < |ends'| ==> Fresh(ends'[id]))
  }

  lemma TemplateLink(net: Net, ends: seq<TunnelEnd>, id: nat)
    requires Pairing(net, ends) && id < |ends| && ends[id].other >= 0
    ensures Paired(net, ends[id].end) && ends[id].other < |ends|
    ensures ends[ends[id].other].end == Other(net, ends[id].end)
  {
    assert LinkOk(net, ends, id);
  }

  /** What following a null pointer takes, for a side that is not loose itself. */
  lemma NullCases(net: Net, ends: seq<TunnelEnd>, tunnels: seq<seq<nat>>, runs: seq<End>, p: Port, out: bool)
    requires ExpandOk(net, ends, tunnels, runs) && IsSide(net, p, out) && NoLooseSide(net)
    ensures (p.idx, out) !in net.loose
    ensures p.idx !in net.tunnel || Paired(net, End(p, out)) ==> !FollowsNull(net, p, out)
    ensures !Paired(net, End(p, out)) ==> (FollowsNull(net, p, out) <==> (p.idx, !out) in net.loose && p.port != 0)
  {
    hide Directory, Pairing, Templates, EndsOk, AbsentEmpty, LogOk, IsSide;
    assert SideOk(net, p.idx, out) && SideOk(net, p.idx, !out);
  }

  class Lexer {
    ghost var runs: seq<End>
    ghost var table: map<End, Entry>
    var ends: seq<TunnelEnd>
    var tunnels: seq<seq<nat>>

    /** The binary search of `find_tunnel`. */
    method FindRow(idx: nat) returns (l: nat, found: bool)
      requires RowsSorted(ends, tunnels)
      ensures RowPosition(ends, tunnels, idx, l, found)
    {
      l := 0;
      var r := |tunnels|;
      while l < r
        invariant 0 <= l <= r <= |tunnels|
        invariant forall i :: 0 <= i < l ==> RowIdx(ends, tunnels[i]) < idx
        invariant forall i :: r <= i < |tunnels| ==> RowIdx(ends, tunnels[i]) > idx
      {
        var m := l + (r - l) / 2;
        if idx < RowIdx(ends, tunnels[m]) {
          r := m;
        } else if idx > RowIdx(ends, tunnels[m]) {
          l := m + 1;
        } else {
          return m, true;
        }
      }
      return l, false;
    }

    /** The list walk of `find_tunnel`: the end for port `h`, or else the end for port 0. */
    method MatchInRow(row: seq<nat>, h: Port, out: bool) returns (exact: int, template: int)
      requires RowOk(ends, row) && RowIdx(ends, row) == h.idx
      ensures exact >= 0 ==> exact < |ends| && ends[exact].end == End(h, out)
      ensures exact < 0 ==> forall k :: 0 <= k < |row| ==> ends[row[k]].end != End(h, out)
      ensures exact < 0 && template >= 0 ==> template < |ends| && ends[template].end == End(Port(h.idx, 0), out)
      ensures exact < 0 && template < 0 ==> forall k :: 0 <= k < |row| ==> ends[row[k]].end != End(Port(h.idx, 0), out)
    {
      exact, template := -1, -1;
      var k := 0;
      while k < |row|
        invariant 0 <= k <= |row|
        invariant forall j :: 0 <= j < k ==> ends[row[j]].end != End(h, out)
        invariant template >= 0 ==> template < |ends| && ends[template].end == End(Port(h.idx, 0), out)
        invariant template < 0 ==> forall j :: 0 <= j < k ==> ends[row[j]].end != End(Port(h.idx, 0), out)
      {
        var te := ends[row[k]];
        if te.end.out == out && te.end.port.port == h.port {
          exact := row[k];
          return;
        } else if te.end.out == out && te.end.port.port == 0 {
          template := row[k];
        }
        k := k + 1;
      }
    }

    method Lookup(h: Port, out: bool) returns (l: nat, found: bool, exact: int, template: int)
      requires Directory(ends, tunnels)
      ensures RowPosition(ends, tunnels, h.idx, l, found)
      ensures exact >= 0 ==> exact < |ends| && ends[exact].end == End(h, out)
      ensures exact >= 0 <==> HasEnd(ends, End(h, out))
      ensures exact < 0 && template >= 0 ==> template < |ends| && ends[template].end == End(Port(h.idx, 0), out)
      ensures exact < 0 && template < 0 ==> !HasEnd(ends, End(Port(h.idx, 0), out))
    {
      l, found := FindRow(h.idx);
      exact, template := -1, -1;
      if found {
        assert RowOk(ends, tunnels[l]);
        exact, template := MatchInRow(tunnels[l], h, out);
      }
      forall id | 0 <= id < |ends| && ends[id].end.port.idx == h.idx ensures found && id in tunnels[l] {
        RowOfEnd(ends, tunnels, id, l, found);
      }
    }

    /** Allocate an unpaired end and put it at the front of its row. */
    method AddEnd(h: Port, out: bool, l: nat, found: bool) returns (id: nat)
      requires Directory(ends, tunnels) && !HasEnd(ends, End(h, out))
      requires RowPosition(ends, tunnels, h.idx, l, found)
      modifies this`ends, this`tunnels
      ensures Directory(ends, tunnels)
      ensures ends == old(ends) + [TunnelEnd(End(h, out), -1, [], 0)] && id == |old(ends)|
    {
      hide Directory, HasEnd, RowsSorted;
      id := |ends|;
      var te := TunnelEnd(End(h, out), -1, [], 0);
      DirectoryAdd(ends, tunnels, te, l, found);
      ghost var tunnels' := Inserted(tunnels, l, found, id);
      if !found {
        tunnels := tunnels[..l] + [[]] + tunnels[l..];
      }
      ends := ends + [te];
      tunnels := tunnels[l := [id] + tunnels[l]];
      assert [id] + [] == [id];
      assert tunnels == tunnels';
    }

    /** `find_tunnel` with `insert` set. */
    method FindOrAddTunnel(h: Port, out: bool) returns (id: nat)
      requires Directory(ends, tunnels)
      modifies this`ends, this`tunnels
      ensures Directory(ends, tunnels)
      ensures id < |ends| && ends[id].end == End(h, out)
      ensures if HasEnd(old(ends), End(h, out)) then ends == old(ends) && tunnels == old(tunnels)
              else ends == old(ends) + [TunnelEnd(End(h, out), -1, [], 0)] && id == |old(ends)|
    {
      hide *;
      var l, found, exact, _ := Lookup(h, out);
      if exact >= 0 {
        return exact;
      }
      id := AddEnd(h, out, l, found);
    }

    /** Create an end together with its far end, and pair them. */
    method AddPair(h: Port, out: bool, otherIdx: nat, l: nat, found: bool, ghost net: Net) returns (id: nat)
      requires TunnelsOk(net, ends, tunnels) && !HasEnd(ends, End(h, out))
      requires RowPosition(ends, tunnels, h.idx, l, found)
      requires Paired(net, End(h, out)) && Other(net, End(h, out)) == End(Port(otherIdx, h.port), !out)
      modifies this`ends, this`tunnels
      ensures TunnelsOk(net, ends, tunnels)
      ensures id == |old(ends)| && ends == old(ends) + [TunnelEnd(End(h, out), id + 1, [], 0),
                                                        TunnelEnd(End(Port(otherIdx, h.port), !out), id, [], 0)]
    {
      hide Directory, RowsSorted, Pairing, Templates, NetOk;
      ghost var e, ends0 := End(h, out), ends;
      OtherPresent(net, ends, e);
      id := AddEnd(h, out, l, found);
      HasEndAppend(ends0, ends[id], Other(net, e));
      var ote := FindOrAddTunnel(Port(otherIdx, h.port), !out);
      ghost var ends1 := ends;
      ends := ends[id := ends[id].(other := ote)][ote := ends[ote].(other := id)];
      DirectorySame(ends1, ends, tunnels);
      PairingAdd(net, ends0, e);
      assert ends == ends0 + [TunnelEnd(e, id + 1, [], 0), TunnelEnd(Other(net, e), id, [], 0)];
      TemplatesExtend(net, ends0, ends);
    }

    /** `find_tunnel` without `insert`: the end for port `h` if its element has a tunnel on that
        side, created on demand together with its far end.  Without `ok` the partner of a loose end
        was asked for its port. */
    method FindTunnel(h: Port, out: bool, ghost net: Net) returns (id: int, ok: bool)
      requires TunnelsOk(net, ends, tunnels)
      modifies this`ends, this`tunnels
      ensures ok <==> !((h.idx, out) in net.loose && h.port != 0)
      ensures TunnelsOk(net, ends, tunnels) && Extends(old(ends), ends)
      ensures ok ==> (id >= 0 <==> Paired(net, End(h, out)) || LooseEnd(net, End(h, out)))
      ensures id >= 0 ==> id < |ends| && ends[id].end == End(h, out)
      ensures id >= 0 ==> (ends[id].other >= 0 <==> Paired(net, End(h, out)))
      ensures id < 0 ==> ends == old(ends)
    {
      hide Directory, RowsSorted, NetOk, Pairing, Templates, HasEnd;
      var l, found, exact, template := Lookup(h, out);
      NetFacts(net, ends, tunnels);
      SideFacts(net, h.idx, out);
      if exact >= 0 {
        PartnerIs(net, ends, exact);
        return exact, true;
      }
      DeclaredHasEnd(net, ends, h.idx, out);
      if template < 0 {
        return -1, true;
      }
      PartnerIs(net, ends, template);
      if ends[template].other < 0 {
        return -1, false;
      }
      TemplateLink(net, ends, template);
      id := AddPair(h, out, ends[ends[template].other].end.port.idx, l, found, net);
      ok := true;
    }

    /** `expand_connection`: the real ports that `p` stands for. */
    method ExpandConnection(p: Port, out: bool, tunnel: set<nat>, ghost net: Net) returns (r: seq<Port>, ok: bool)
      requires tunnel == net.tunnel && p in PortsOf(net) && IsSide(net, p, out) && NoLooseSide(net)
      requires ExpandOk(net, ends, tunnels, runs) && BusyAhead(net, ends, p, out) && TableOk(ends, runs, table)
      modifies this
      ensures !ok ==> !Safe(net)
      ensures ok ==> !FollowsNull(net, p, out)
      ensures ok ==> ExpandOk(net, ends, tunnels, runs) && TableOk(ends, runs, table)
      ensures ok ==> Grows(old(ends), ends) && old(runs) <= runs
      ensures ok ==> (r, table) == Walk(net, old(table), p, out)
      ensures ok ==> Sound(net, p, out, r)
      ensures ok && Clear(net, p, out) ==> Complete(net, p, out, r)
      decreases Unexpanded(net, runs), 2
    {
      hide *;
      WalkReal(net, table, p, out);
      NullCases(net, ends, tunnels, runs, p, out);
      if p.idx !in tunnel {
        RealPort(net, p, out);
        GrowsRefl(ends);
        return [p], true;
      }
      label Start:
      var id;
      id, ok := FindTunnelKeeping(p, out, net);
      TableExtends(old(ends), ends, runs, table);
      if id >= 0 {
        BusyGrows(net, old(ends), ends, p, out);
        ghost var ends1 := ends;
        r, ok := Expand(id, tunnel, net);
        if ok { GrowsTrans(old(ends), ends1, ends); }
      } else {
        // only an error message depends on what this search finds
        ghost var ends1 := ends;
        var other;
        other, ok := FindTunnelKeeping(p, !out, net);
        TableExtends(ends1, ends, runs, table);
        GrowsTrans(old(ends), ends1, ends);
        UnpairedPort(net, p, out);
        r := [];
        if !ok { NotSafe(net, p, out); }
      }
    }

    /** `find_tunnel` does not disturb the expansion. */
    method FindTunnelKeeping(h: Port, out: bool, ghost net: Net) returns (id: int, ok: bool)
      requires ExpandOk(net, ends, tunnels, runs)
      modifies this`ends, this`tunnels
      ensures ok <==> !((h.idx, out) in net.loose && h.port != 0)
      ensures ExpandOk(net, ends, tunnels, runs) && Grows(old(ends), ends) && Extends(old(ends), ends)
      ensures ok && (h.idx, out) !in net.loose ==> (id >= 0 <==> Paired(net, End(h, out)))
      ensures id >= 0 ==> id < |ends| && ends[id].end == End(h, out)
      ensures id >= 0 && (h.idx, out) !in net.loose ==> ends[id].other >= 0
    {
      hide EndsOk, AbsentEmpty, LogOk, NetOk, Templates, RowsSorted;
      id, ok := FindTunnel(h, out, net);
      forall k | 0 <= k < |ends| && ends[k].other >= 0 ensures Paired(net, ends[k].end) {
        assert LinkOk(net, ends, k);
      }
      ExtendsKeeps(net, old(ends), ends, runs);
    }

    /** `TunnelEnd::expand`. */
    method Expand(id: nat, tunnel: set<nat>, ghost net: Net) returns (r: seq<Port>, ok: bool)
      requires tunnel == net.tunnel && NoLooseSide(net)
      requires ExpandOk(net, ends, tunnels, runs) && TableOk(ends, runs, table)
      requires id < |ends| && ends[id].end.port in PortsOf(net) && ends[id].other >= 0
      requires BusyAhead(net, ends, ends[id].end.port, ends[id].end.out)
      modifies this
      ensures !ok ==> !Safe(net)
      ensures ok ==> ExpandOk(net, ends, tunnels, runs) && TableOk(ends, runs, table)
      ensures ok ==> Grows(old(ends), ends) && old(runs) <= runs
      ensures ok ==> var e := old(ends[id].end); (r, table) == Walk(net, old(table), e.port, e.out)
      ensures ok ==> var e := old(ends[id].end);
          Sound(net, e.port, e.out, r) && (Clear(net, e.port, e.out) ==> Complete(net, e.port, e.out, r))
      decreases Unexpanded(net, runs), 1
    {
      hide *;
      TableAt(net, ends, tunnels, runs, table, id);
      if ends[id].expanded != 0 { WalkKnown(net, table, ends[id].end); }
      if ends[id].expanded == 1 {
        BusyMeansCycle(net, ends, id);
        GrowsRefl(ends);
        return [], true;
      }
      GrowsRefl(ends);
      ok := true;
      if ends[id].expanded == 0 {
        ok := ExpandBody(id, tunnel, net);
        if !ok {
          return [], false;
        }
      }
      EndResult(net, ends, tunnels, runs, id);
      r := ends[id].correspond;
    }

    method ExpandBody(id: nat, tunnel: set<nat>, ghost net: Net) returns (ok: bool)
      requires tunnel == net.tunnel && NoLooseSide(net) && id < |ends| && ends[id].other >= 0
      requires ExpandOk(net, ends, tunnels, runs) && TableOk(ends, runs, table)
      requires id < |ends| && ends[id].end.port in PortsOf(net) && ends[id].expanded == 0
      requires BusyAhead(net, ends, ends[id].end.port, ends[id].end.out)
      modifies this
      ensures !ok ==> !Safe(net)
      ensures ok ==> ExpandOk(net, ends, tunnels, runs) && TableOk(ends, runs, table)
      ensures ok ==> Grows(old(ends), ends) && old(runs) <= runs
      ensures ok ==> id < |ends| && ends[id].expanded == 2 && ends[id].end == old(ends)[id].end
      ensures ok ==> var e := ends[id].end; (ends[id].correspond, table) == Walk(net, old(table), e.port, e.out)
      decreases Unexpanded(net, runs), 0
    {
      hide *;
      ghost var e := ends[id].end;
      var out := ends[id].end.out;
      var connections := ends[id].correspond;
      MarkOk(net, ends, tunnels, runs, id);
      TableAt(net, ends, tunnels, runs, table, id);
      TableSet(net, ends, tunnels, runs, table, id, ends[id].(correspond := [], expanded := 1));
      WalkNew(net, table, e);
      UnexpandedShrinks(net, runs, e);
      ends := ends[id := ends[id].(correspond := [], expanded := 1)];
      runs := runs + [e];
      table := table[e := Busy];
      ghost var start, known := ends, table;
      WalkAllStart(net, known, connections, out);
      GrowsRefl(ends);
      assert ends[id := start[id]] == start;
      var i := 0;
      while i < |connections|
        invariant 0 <= i <= |connections|
        invariant ExpandOk(net, ends, tunnels, runs) && TableOk(ends, runs, table)
        invariant old(runs) + [e] <= runs
        invariant id < |ends| && ends[id] == TunnelEnd(e, start[id].other, ends[id].correspond, 1)
            && ends[id].other >= 0
        invariant AllPorts(net, connections[..i])
        invariant (ends[id].correspond, table) == WalkAll(net, known, connections[..i], out)
        invariant Grows(start, ends[id := start[id]])
        invariant Sound(net, e.port, out, ends[id].correspond)
        invariant Clear(net, e.port, out) ==>
            forall j :: 0 <= j < i ==> Complete(net, connections[j], out, ends[id].correspond)
      {
        CutMember(net, e, connections, i);
        BusyMark(net, old(ends), start, id, connections[i]);
        BusyGrows(net, start, ends[id := start[id]], connections[i], out);
        BusySame(net, ends[id := start[id]], ends, id, connections[i], out);
        ghost var b := ends;
        var more, good := ExpandConnection(connections[i], out, tunnel, net);
        if !good {
          return false;
        }
        BusyFixed(b, ends, id);
        GrowsAround(start, b, ends, id);
        SoundLift(net, e.port, out, connections[i], b[id].correspond, more);
        ghost var t := ends[id].(correspond := ends[id].correspond + more);
        FinishOk(net, ends, tunnels, runs, id, t);
        TableAt(net, ends, tunnels, runs, table, id);
        TableSet(net, ends, tunnels, runs, table, id, t);
        assert table[e := Busy] == table;
        WalkAllStep(net, known, connections, i, out);
        if Clear(net, e.port, out) { ClearStep(net, e.port, out, connections[i]); }
        forall j | 0 <= j <= i && Clear(net, e.port, out) ensures Complete(net, connections[j], out, t.correspond) {
          CompleteMore(net, connections[j], out, b[id].correspond, more);
        }
        assert ends[id := t][id := start[id]] == ends[id := start[id]];
        ends := ends[id := ends[id].(correspond := ends[id].correspond + more)];
        i := i + 1;
      }
      ghost var t := ends[id].(expanded := 2);
      if Clear(net, e.port, out) { CompleteAll(net, e, connections, t.correspond); }
      FinishOk(net, ends, tunnels, runs, id, t);
      TableSet(net, ends, tunnels, runs, table, id, t);
      GrowsFinish(old(ends), start, ends, id, t);
      ends := ends[id := ends[id].(expanded := 2)];
      table := table[e := Done(ends[id].correspond)];
      ok := true;
    }

    constructor ()
      ensures ends == [] && forall conns :: TunnelsOk(Net(conns, {}, map[], {}), ends, tunnels)
    {
      ends, tunnels, runs, table := [], [], [], map[];
    }

    /** One of the four ends of a compound: free if it has no partner yet. */
    method Declare(idx: nat, out: bool, ghost net: Net) returns (id: nat, free: bool)
      requires TunnelsOk(net, ends, tunnels)
      modifies this`ends, this`tunnels
      ensures TunnelsOk(Loosen(net, idx, out), ends, tunnels)
      ensures free <==> (idx, out) !in net.pair
      ensures id < |ends| && ends[id].end == End(Port(idx, 0), out)
      ensures if Declared(net, idx, out) then ends == old(ends)
              else ends == old(ends) + [TunnelEnd(End(Port(idx, 0), out), -1, [], 0)] && id == |old(ends)|
    {
      hide Directory, NetOk, Pairing, Templates, HasEnd;
      DeclaredHasEnd(net, ends, idx, out);
      LoosenNet(net, idx, out);
      LoosenTunnels(net, ends, idx, out);
      id := FindOrAddTunnel(Port(idx, 0), out);
      free := ends[id].other < 0;
      PartnerIs(Loosen(net, idx, out), ends, id);
    }

    /** `pair_with` for an input end and an output end. */
    method PairWith(ta: nat, tb: nat, ghost a: nat, ghost b: nat, ghost net: Net)
      requires TunnelsOk(net, ends, tunnels) && (a, false) in net.loose && (b, true) in net.loose
      requires ta < |ends| && tb < |ends|
      requires ends[ta].end == End(Port(a, 0), false) && ends[tb].end == End(Port(b, 0), true)
      modifies this`ends
      ensures TunnelsOk(Join(net, a, b), ends, tunnels) && ends == Coupled(old(ends), ta, tb)
    {
      hide TunnelsOk;
      JoinTunnels(net, ends, tunnels, ta, tb, a, b);
      ends := ends[ta := ends[ta].(other := tb)];
      ends := ends[tb := ends[tb].(other := ta)];
    }

    /** The four ends of a compound. */
    method DeclareAll(e0: nat, e1: nat, e2: nat, ghost net: Net) returns (t0: nat, t1: nat, t2: nat, t3: nat, ok: bool)
      requires TunnelsOk(net, ends, tunnels) && e0 != e1 && e1 != e2 && e0 != e2
      modifies this`ends, this`tunnels
      ensures TunnelsOk(FourSides(net, e0, e1, e2), ends, tunnels)
      ensures ok <==> SidesFree(net, e0, e1, e2)
      ensures t0 < |ends| && t1 < |ends| && t2 < |ends| && t3 < |ends|
      ensures ends[t0].end == End(Port(e0, 0), false) && ends[t1].end == End(Port(e1, 0), true)
      ensures ends[t2].end == End(Port(e2, 0), false) && ends[t3].end == End(Port(e0, 0), true)
      ensures Extends(old(ends), ends) && (ends == old(ends) <==> SidesDeclared(net, e0, e1, e2))
      ensures SidesNew(net, e0, e1, e2) ==> var n := |old(ends)|;
          |ends| == n + 4 && t0 == n && t1 == n + 1 && t2 == n + 2 && t3 == n + 3
    {
      hide TunnelsOk, Loosen;
      FourFacts(net, e0, e1, e2);
      ghost var ends0 := ends;
      var free0, free1, free2, free3;
      t0, free0 := Declare(e0, false, net);
      ghost var net1, ends1 := Loosen(net, e0, false), ends;
      t1, free1 := Declare(e1, true, net1);
      ghost var net2, ends2 := Loosen(net1, e1, true), ends;
      t2, free2 := Declare(e2, false, net2);
      ghost var net3, ends3 := Loosen(net2, e2, false), ends;
      t3, free3 := Declare(e0, true, net3);
      ok := free0 && free1 && free2 && free3;
      assert Extends(ends0, ends1) && Extends(ends1, ends2) && Extends(ends2, ends3) && Extends(ends3, ends);
    }

    /** `add_tunnels` for a compound: two tunnels, from the compound to its input pseudo-element
        and from its output pseudo-element back.  A name that already has a tunnel is an error; the
        sides that have none stay declared then. */
    method AddTunnels(e0: nat, e1: nat, e2: nat, ghost net: Net) returns (ok: bool)
      requires TunnelsOk(net, ends, tunnels) && e0 != e1 && e1 != e2 && e0 != e2
      modifies this`ends, this`tunnels
      ensures ok <==> SidesFree(net, e0, e1, e2)
      ensures TunnelsOk(WithTunnels(net, e0, e1, e2), ends, tunnels) && Redeclared(old(ends), ends)
      ensures ok && SidesNew(net, e0, e1, e2) ==> ends == old(ends) + FourEnds(|old(ends)|, e0, e1, e2)
      ensures !ok ==> old(ends) <= ends && (ends == old(ends) <==> SidesDeclared(net, e0, e1, e2))
    {
      hide TunnelsOk, SidesNew, SidesDeclared, FourSides, Join;
      var t0, t1, t2, t3;
      t0, t1, t2, t3, ok := DeclareAll(e0, e1, e2, net);
      if ok {
        ghost var net4, ends4 := FourSides(net, e0, e1, e2), ends;
        FourLoose(net, e0, e1, e2);
        PairWith(t0, t1, e0, e1, net4);
        PairWith(t2, t3, e2, e0, Join(net4, e0, e1));
        JoinedTwice(old(ends), ends4, t0, t1, t2, t3, e0, e1, e2);
      }
    }

    /** First-level expansion of one side of connection `c`. */
    method FirstLevelSide(c: Connection, out: bool, routerId: seq<int>, ghost net: Net, ghost nOut: nat, ghost nIn: nat)
      returns (ok: bool)
      requires nOut <= |net.conns| && nIn <= |net.conns|
      requires var n := if out then nIn else nOut; n < |net.conns| && c == net.conns[n]
      requires TunnelsOk(net, ends, tunnels) && IdsOk(net, routerId) && CutAt(net, ends, nOut, nIn)
      modifies this`ends, this`tunnels
      ensures ok <==> (Side(c, out).idx, out) !in net.loose
      ensures ok ==> TunnelsOk(net, ends, tunnels) && nOut <= |net.conns|
      ensures ok ==> CutAt(net, ends, if out then nOut else nOut + 1, if out then nIn + 1 else nIn)
    {
      hide NetOk, CutAt, Templates, RowsSorted, RowOk, HasEnd;
      var p := Side(c, out);
      var id := -1;
      ok := true;
      SideFacts(net, p.idx, out);
      if routerId[p.idx] < 0 {
        id, ok := FindTunnel(p, out, net);
        CutAtExtends(net, old(ends), ends, tunnels, nOut, nIn);
      }
      if !ok || (id >= 0 && ends[id].other < 0) {
        return false;
      }
      ghost var b := ends;
      if id >= 0 {
        assert LinkOk(net, ends, id);
        var o := ends[id].other;
        FarEnd(net, ends, tunnels, id);
        ends := ends[o := ends[o].(correspond := ends[o].correspond + [Side(c, !out)])];
        forall k | 0 <= k < |ends| ensures LinkOk(net, ends, k) { assert LinkOk(net, b, k); }
        DirectorySame(b, ends, tunnels);
        TemplatesExtend(net, b, ends);
      }
      CutAtStep(net, b, ends, nOut, nIn, out);
    }

    /** The first-level expansion of `create_router`. */
    method FirstLevel(conns: seq<Connection>, routerId: seq<int>, ghost net: Net) returns (ok: bool)
      requires conns == net.conns && IdsOk(net, routerId)
      requires TunnelsOk(net, ends, tunnels) && forall id :: 0 <= id < |ends| ==> Fresh(ends[id])
      modifies this
      ensures ok <==> NoLooseSide(net)
      ensures ok ==> ExpandOk(net, ends, tunnels, runs) && TableOk(ends, runs, table) && table == map[]
      ensures ok ==> forall id :: 0 <= id < |ends| ==> ends[id].expanded != 1
    {
      hide *;
      CutAtStart(net, ends, tunnels);
      var n := 0;
      while n < |conns|
        invariant 0 <= n <= |conns|
        invariant TunnelsOk(net, ends, tunnels) && CutAt(net, ends, n, n)
        invariant forall k :: 0 <= k < n ==> SidesJoined(net, conns[k])
      {
        LooseSides(net, conns[n]);
        ok := FirstLevelSide(conns[n], false, routerId, net, n, n);
        if !ok {
          return;
        }
        ok := FirstLevelSide(conns[n], true, routerId, net, n + 1, n);
        if !ok {
          return;
        }
        n := n + 1;
      }
      ok := true;
      AllSidesJoined(net);
      runs, table := [], map[];
      CutAtEnd(net, ends, tunnels);
      TableStart(net, ends, tunnels);
    }

    /** `add_router_connections` for connection `c`: the wires it adds. */
    method AddRouterConnections(c: Connection, routerId: seq<int>, tunnel: set<nat>, ghost net: Net)
      returns (wires: seq<Connection>, ok: bool)
      requires tunnel == net.tunnel && c in net.conns && TableOk(ends, runs, table) && NoLooseSide(net)
      requires ExpandOk(net, ends, tunnels, runs) && forall id :: 0 <= id < |ends| ==> ends[id].expanded != 1
      modifies this
      ensures !ok ==> !Safe(net)
      ensures ok ==> !FollowsNull(net, c.from, true) && !FollowsNull(net, c.to, false)
      ensures ok ==> ExpandOk(net, ends, tunnels, runs) && forall id :: 0 <= id < |ends| ==> ends[id].expanded != 1
      ensures ok ==> TableOk(ends, runs, table)
      ensures ok ==> var (from, mid) := Walk(net, old(table), c.from, true); var (to, after) := Walk(net, mid, c.to,
          false);
              && wires == Product(from, to, routerId) && table == after
              && Sound(net, c.from, true, from) && Sound(net, c.to, false, to)
              && (Clear(net, c.from, true) ==> Complete(net, c.from, true, from))
              && (Clear(net, c.to, false) ==> Complete(net, c.to, false, to))
    {
      hide *;
      Idle(net, ends, c.from, true);
      assert c.from in PortsOf(net) && c.to in PortsOf(net) by { ConnPorts(net, c); }
      SideIs(net, c);
      var hfrom, hto;
      hfrom, ok := ExpandConnection(c.from, true, tunnel, net);
      if !ok {
        return [], false;
      }
      IdleGrows(old(ends), ends);
      Idle(net, ends, c.to, false);
      ghost var mid := ends;
      hto, ok := ExpandConnection(c.to, false, tunnel, net);
      if !ok {
        return [], false;
      }
      IdleGrows(mid, ends);
      wires := CrossProduct(hfrom, hto, routerId);
    }

    method CrossProduct(hfrom: seq<Port>, hto: seq<Port>, routerId: seq<int>) returns (wires: seq<Connection>)
      ensures wires == Product(hfrom, hto, routerId) && PairsOf(routerId, hfrom, hto, wires)
    {
      hide Product, Row, PairsOf, Live;
      wires := [];
      assert Product(hfrom[..0], hto, routerId) == [] by { ProductNone(hto, routerId); }
      for f := 0 to |hfrom|
        invariant wires == Product(hfrom[..f], hto, routerId)
      {
        ghost var done := wires;
        ProductStep(hfrom, hto, f, routerId);
        if Live(routerId, hfrom[f]) {
          RowNone(hfrom[f], routerId);
          for t := 0 to |hto|
            invariant wires == done + Row(hfrom[f], hto[..t], routerId)
          {
            RowStep(hfrom[f], hto, t, routerId);
            if Live(routerId, hto[t]) {
              wires := wires + [Connection(hfrom[f], hto[t])];
            }
          }
          assert hto[..|hto|] == hto;
        }
      }
      assert hfrom[..|hfrom|] == hfrom;
      ProductPairs(hfrom, hto, routerId);
    }

    /** The connection part of `create_router`.  It follows a null pointer exactly if a connection
        calls for the partner of a loose end.  Otherwise, between elements that are in the router, the
        wires are routes through tunnels, and all of them if the tunnels form no cycle. */
    method FlattenConnections(conns: seq<Connection>, routerId: seq<int>, tunnel: set<nat>, ghost net: Net)
      returns (wires: seq<Connection>, ok: bool)
      requires conns == net.conns && tunnel == net.tunnel && IdsOk(net, routerId)
      requires TunnelsOk(net, ends, tunnels) && forall id :: 0 <= id < |ends| ==> Fresh(ends[id])
      modifies this
      ensures ok <==> Safe(net)
      ensures ok ==> wires == Wires(net, routerId)
      ensures ok ==> WiresRight(net, routerId, wires)
      ensures ok ==> forall i, j :: 0 <= i < j < |runs| ==> runs[i] != runs[j]
    {
      hide *;
      NetFacts(net, ends, tunnels);
      if Safe(net) { SafeSides(net); }
      ok := FirstLevel(conns, routerId, net);
      if !ok {
        return [], false;
      }
      InitialSound(net, routerId);
      var all := conns;
      NothingContributed(net, routerId, all);
      AddedStart(net, routerId);
      var k := 0;
      while k < |conns|
        invariant 0 <= k <= |conns| && conns <= all
        invariant ExpandOk(net, ends, tunnels, runs) && forall id :: 0 <= id < |ends| ==> ends[id].expanded != 1
        invariant TableOk(ends, runs, table)
        invariant all == conns + Added(net, routerId, k).0 && table == Added(net, routerId, k).1
        invariant WiresSound(net, routerId, all)
        invariant Contributed(net, routerId, all, k)
        invariant forall j :: 0 <= j < k ==> Harmless(net, conns[j])
      {
        var c := conns[k];
        ConnIds(net, routerId, c);
        if routerId[c.from.idx] < 0 || routerId[c.to.idx] < 0 {
          ghost var from, to := WalkBoth(net, routerId, table, c);
          var more;
          more, ok := AddRouterConnections(c, routerId, tunnel, net);
          if !ok {
            return [], false;
          }
          HarmlessIs(net, c);
          ProductPairs(from, to, routerId);
          NotLive(routerId, c);
          AddedMore(net, routerId, k, more, table);
          AddedSound(net, routerId, c, from, to, all, more);
          AddedComplete(net, routerId, k, from, to, all, more);
          all := all + more;
        } else {
          LiveHarmless(net, routerId, c);
          AddedSkip(net, routerId, k);
          SkippedComplete(net, routerId, k, all);
        }
        k := k + 1;
      }
      AllHarmless(net);
      ok := true;
      wires := LiveOnly(all, routerId);
      WiresAre(net, routerId);
      AllRight(net, routerId, all, wires);
      LogDistinct(net, ends, tunnels, runs);
    }

    /** Drop the connections with an end outside the router. */
    method LiveOnly(all: seq<Connection>, routerId: seq<int>) returns (wires: seq<Connection>)
      ensures wires == LiveOf(all, routerId)
      ensures forall w :: w in wires <==> w in all && Live(routerId, w.from) && Live(routerId, w.to)
    {
      hide LiveOf, Live;
      wires := [];
      LiveOfNone(routerId);
      for k := 0 to |all|
        invariant wires == LiveOf(all[..k], routerId)
      {
        LiveOfStep(all, k, routerId);
        if Live(routerId, all[k].from) && Live(routerId, all[k].to) {
          wires := wires + [all[k]];
        }
      }
      assert all[..|all|] == all;
      forall w ensures w in wires <==> w in all && Live(routerId, w.from) && Live(routerId, w.to) {
        LiveOfMembers(all, routerId, w);
      }
    }
  }

  lemma HarmlessIs(net: Net, c: Connection)
    requires !FollowsNull(net, c.from, true) && !FollowsNull(net, c.to, false)
    ensures Harmless(net, c)
  {
  }

  /** Only live elements joined by a route are connected; they are if a connection stands for them with
      no cycle behind it or ahead, and so always if no tunnel leads back to itself. */
  ghost predicate WiresRight(net: Net, routerId: seq<int>, wires: seq<Connection>) {
    && (forall w :: w in wires ==> Live(routerId, w.from) && Live(routerId, w.to) && Linked(net, w.from, w.to))
    && (forall o, i :: Live(routerId, o) && Live(routerId, i) && Assured(net, o, i) ==> Connection(o, i) in wires)
    && (NoTunnelCycle(net) ==>
         forall o, i :: Live(routerId, o) && Live(routerId, i) && Linked(net, o, i) ==> Connection(o, i) in wires)
  }

  lemma AllRight(net: Net, routerId: seq<int>, all: seq<Connection>, wires: seq<Connection>)
    requires NetOk(net) && IdsOk(net, routerId) && net.conns <= all
    requires WiresSound(net, routerId, all) && Contributed(net, routerId, all, |net.conns|)
    requires forall w :: w in wires <==> w in all && Live(routerId, w.from) && Live(routerId, w.to)
    ensures WiresRight(net, routerId, wires)
  {
    hide NetOk, IdsOk, WiresSound, Contributed, Live, Linked, Assured, NoTunnelCycle;
    forall w | w in wires ensures Linked(net, w.from, w.to) {
      SoundWire(net, routerId, all, w);
    }
    forall o, i | Live(routerId, o) && Live(routerId, i) && Assured(net, o, i) ensures Connection(o, i) in wires {
      AssuredWired(net, routerId, all, o, i);
    }
    forall o, i | NoTunnelCycle(net) && Live(routerId, o) && Live(routerId, i) && Linked(net, o, i)
      ensures Connection(o, i) in wires
    {
      RouteWired(net, routerId, o, i);
    }
  }

  lemma NotLive(routerId: seq<int>, c: Connection)
    requires c.from.idx < |routerId| && c.to.idx < |routerId|
    requires routerId[c.from.idx] < 0 || routerId[c.to.idx] < 0
    ensures !(Live(routerId, c.from) && Live(routerId, c.to))
  {
  }

  lemma WiresAre(net: Net, routerId: seq<int>)
    ensures Wires(net, routerId) == LiveOf(net.conns + Added(net, routerId, |net.conns|).0, routerId)
  {
  }

  lemma ProductNone(to: seq<Port>, routerId: seq<int>)
    ensures Product([], to, routerId) == []
  {
  }

  lemma RowNone(from: Port, routerId: seq<int>)
    ensures Row(from, [], routerId) == []
  {
  }

  lemma LiveOfNone(routerId: seq<int>)
    ensures LiveOf([], routerId) == []
  {
  }

  lemma WalkBoth(net: Net, routerId: seq<int>, table: map<End, Entry>, c: Connection)
      returns (from: seq<Port>, to: seq<Port>)
    requires c in net.conns
    ensures var (hfrom, mid) := Walk(net, table, c.from, true); var (hto, after) := Walk(net, mid, c.to, false);
            from == hfrom && to == hto && AddedBy(net, routerId, table, c) == (Product(from, to, routerId), after)
  {
    var (hfrom, mid) := Walk(net, table, c.from, true);
    from, to := hfrom, Walk(net, mid, c.to, false).0;
  }

  lemma Idle(net: Net, ends: seq<TunnelEnd>, p: Port, out: bool)
    requires forall id :: 0 <= id < |ends| ==> ends[id].expanded != 1
    ensures BusyAhead(net, ends, p, out)
  {
  }

  lemma IdleGrows(ends: seq<TunnelEnd>, ends': seq<TunnelEnd>)
    requires Grows(ends, ends') && forall id :: 0 <= id < |ends| ==> ends[id].expanded != 1
    ensures forall id :: 0 <= id < |ends'| ==> ends'[id].expanded != 1
  {
    forall id | 0 <= id < |ends'| ensures ends'[id].expanded != 1 {
      if id < |ends| { assert EndGrows(ends[id], ends'[id]); }
    }
  }

  lemma ConnPorts(net: Net, c: Connection)
    requires c in net.conns
    ensures c.from in PortsOf(net) && c.to in PortsOf(net)
  {
  }

  lemma ConnIds(net: Net, routerId: seq<int>, c: Connection)
    requires IdsOk(net, routerId) && c in net.conns
    ensures c.from.idx < |routerId| && c.to.idx < |routerId|
  {
  }

  lemma NetFacts(net: Net, ends: seq<TunnelEnd>, tunnels: seq<seq<nat>>)
    requires TunnelsOk(net, ends, tunnels)
    ensures NetOk(net)
  {
  }

  lemma NothingContributed(net: Net, routerId: seq<int>, wires: seq<Connection>)
    ensures Contributed(net, routerId, wires, 0)
  {
  }

  lemma SkippedComplete(net: Net, routerId: seq<int>, n: nat, wires: seq<Connection>)
    requires n < |net.conns| && Contributed(net, routerId, wires, n)
    requires Live(routerId, net.conns[n].from) && Live(routerId, net.conns[n].to)
    ensures Contributed(net, routerId, wires, n + 1)
  {
  }

  lemma SoundWire(net: Net, routerId: seq<int>, wires: seq<Connection>, w: Connection)
    requires WiresSound(net, routerId, wires) && w in wires && Live(routerId, w.from) && Live(routerId, w.to)
    ensures Linked(net, w.from, w.to)
  {
  }

  lemma LogDistinct(net: Net, ends: seq<TunnelEnd>, tunnels: seq<seq<nat>>, runs: seq<End>)
    requires ExpandOk(net, ends, tunnels, runs)
    ensures forall i, j :: 0 <= i < j < |runs| ==> runs[i] != runs[j]
  {
  }

  // ----- A whole configuration

  /** A compound element and its two pseudo-elements. */
  datatype Compound = Compound(whole: nat, input: nat, output: nat)

  predicate ThreeElements(c: Compound) {
    c.whole != c.input && c.input != c.output && c.whole != c.output
  }

  /** The graph that a configuration describes. */
  ghost function NetOf(conns: seq<Connection>, compounds: seq<Compound>): Net {
    if compounds == [] then Net(conns, {}, map[], {}) else
      var c := compounds[|compounds| - 1];
      WithTunnels(NetOf(conns, compounds[..|compounds| - 1]), c.whole, c.input, c.output)
  }

  function TunnelElements(compounds: seq<Compound>): set<nat> {
    if compounds == [] then {} else
      var c := compounds[|compounds| - 1];
      TunnelElements(compounds[..|compounds| - 1]) + {c.whole, c.input, c.output}
  }

  /** No element is declared to be part of two tunnels. */
  ghost predicate Declarable(conns: seq<Connection>, compounds: seq<Compound>) {
    forall k :: 0 <= k < |compounds| ==> DeclarableAt(conns, compounds, k)
  }

  ghost predicate DeclarableAt(conns: seq<Connection>, compounds: seq<Compound>, k: nat)
    requires k < |compounds|
  {
    var c := compounds[k];
    SidesFree(NetOf(conns, compounds[..k]), c.whole, c.input, c.output)
  }

  lemma NetStep(conns: seq<Connection>, compounds: seq<Compound>, k: nat)
    requires k < |compounds|
    ensures var c := compounds[k];
            NetOf(conns, compounds[..k + 1]) == WithTunnels(NetOf(conns, compounds[..k]), c.whole, c.input, c.output)
  {
    assert compounds[..k + 1][..k] == compounds[..k];
  }

  lemma {:induction false} NetParts(conns: seq<Connection>, compounds: seq<Compound>)
    ensures NetOf(conns, compounds).conns == conns && NetOf(conns, compounds).tunnel == TunnelElements(compounds)
  {
    if compounds != [] {
      var c, net := compounds[|compounds| - 1], NetOf(conns, compounds[..|compounds| - 1]);
      NetParts(conns, compounds[..|compounds| - 1]);
      WithTunnelsParts(net, c.whole, c.input, c.output);
    }
  }

  lemma WithTunnelsParts(net: Net, e0: nat, e1: nat, e2: nat)
    ensures WithTunnels(net, e0, e1, e2).conns == net.conns
    ensures WithTunnels(net, e0, e1, e2).tunnel == net.tunnel + {e0, e1, e2}
    ensures SidesFree(net, e0, e1, e2) ==>
        WithTunnels(net, e0, e1, e2).loose == net.loose - {(e0, false), (e1, true), (e2, false), (e0, true)}
  {
  }

  /** Only a redeclaration leaves ends without a partner. */
  lemma {:induction false} DeclarableSafe(conns: seq<Connection>, compounds: seq<Compound>)
    requires Declarable(conns, compounds)
    ensures NetOf(conns, compounds).loose == {} && Safe(NetOf(conns, compounds))
    decreases |compounds|
  {
    if compounds != [] {
      var m := |compounds| - 1;
      var c, front := compounds[m], compounds[..m];
      assert DeclarableAt(conns, compounds, m);
      forall k | 0 <= k < m ensures DeclarableAt(conns, front, k) {
        assert DeclarableAt(conns, compounds, k);
        assert front[..k] == compounds[..k];
      }
      DeclarableSafe(conns, front);
      WithTunnelsParts(NetOf(conns, front), c.whole, c.input, c.output);
    }
  }

  /** Declaring all compounds and flattening: from the configuration to the router's connections.
      Redeclarations are reported and skipped; without `ok` the source has followed a null pointer. */
  method FlattenRouter(conns: seq<Connection>, compounds: seq<Compound>, routerId: seq<int>)
    returns (declared: bool, ok: bool, wires: seq<Connection>)
    requires forall k :: 0 <= k < |compounds| ==> ThreeElements(compounds[k])
    requires IdsOk(NetOf(conns, compounds), routerId)
    ensures declared <==> Declarable(conns, compounds)
    ensures ok <==> Safe(NetOf(conns, compounds))
    ensures declared ==> ok
    ensures ok ==> wires == Wires(NetOf(conns, compounds), routerId)
    ensures ok ==> WiresRight(NetOf(conns, compounds), routerId, wires)
  {
    hide TunnelsOk, NetOf, SidesFree, IdsOk, WithTunnels, Safe, WiresRight, Wires;
    var lexer := new Lexer();
    declared := true;
    assert TunnelsOk(NetOf(conns, []), lexer.ends, lexer.tunnels) by {
      NetStart(conns);
    }
    for k := 0 to |compounds|
      invariant fresh(lexer) && TunnelsOk(NetOf(conns, compounds[..k]), lexer.ends, lexer.tunnels)
      invariant forall id :: 0 <= id < |lexer.ends| ==> Fresh(lexer.ends[id])
      invariant declared <==> forall j :: 0 <= j < k ==> DeclarableAt(conns, compounds, j)
    {
      var c := compounds[k];
      NetStep(conns, compounds, k);
      ghost var b := lexer.ends;
      var free := lexer.AddTunnels(c.whole, c.input, c.output, NetOf(conns, compounds[..k]));
      RedeclaredFresh(b, lexer.ends);
      assert free <==> DeclarableAt(conns, compounds, k);
      if !free {
        declared := false;
      }
    }
    assert compounds[..|compounds|] == compounds;
    NetParts(conns, compounds);
    if Declarable(conns, compounds) { DeclarableSafe(conns, compounds); }
    wires, ok := lexer.FlattenConnections(conns, routerId, TunnelElements(compounds), NetOf(conns, compounds));
  }

  lemma RedeclaredFresh(ends: seq<TunnelEnd>, ends': seq<TunnelEnd>)
    requires Redeclared(ends, ends') && forall id :: 0 <= id < |ends| ==> Fresh(ends[id])
    ensures forall id :: 0 <= id < |ends'| ==> Fresh(ends'[id])
  {
    forall id | 0 <= id < |ends'| ensures Fresh(ends'[id]) {
      if id < |ends| { assert Fresh(ends[id]); }
    }
  }

  /** Declaring a compound that is the input pseudo-element of another. */
  lemma HalfDeclared(net: Net)
    requires net.loose == {} && (1, true) in net.pair
    requires (1, false) !in net.pair && (3, true) !in net.pair && (4, false) !in net.pair
    ensures WithTunnels(net, 1, 3, 4).loose == {(1, false), (3, true), (4, false)}
  {
  }

  /** A compound that is the input pseudo-element of another: it is declared in part, and every
      connection into it makes the source follow a null pointer. */
  lemma NullFollowed(conns: seq<Connection>, c: Connection)
    requires c in conns && c.to.idx == 1
    ensures var compounds := [Compound(0, 1, 2), Compound(1, 3, 4)]; var net := NetOf(conns, compounds);
            !Declarable(conns, compounds) && net.loose == {(1, false), (3, true), (4, false)} && !Safe(net)
  {
    hide NetOf, WithTunnels, Safe, FollowsNull;
    var compounds := [Compound(0, 1, 2), Compound(1, 3, 4)];
    var net := NetOf(conns, compounds);
    NetStart(conns);
    assert compounds[..0] == [] && compounds[..2] == compounds;
    NetStep(conns, compounds, 0);
    NetStep(conns, compounds, 1);
    NetParts(conns, compounds);
    WithNewTunnels(NetOf(conns, []), 0, 1, 2);
    assert !DeclarableAt(conns, compounds, 1);
    HalfDeclared(NetOf(conns, compounds[..1]));
    SideIs(net, c);
    NullAt(net, c.to, false);
    NotSafe(net, c.to, false);
  }

  lemma NullAt(net: Net, p: Port, out: bool)
    requires (p.idx, out) in net.loose
    ensures FollowsNull(net, p, out)
  {
  }

  lemma NetStart(conns: seq<Connection>)
    ensures NetOf(conns, []) == Net(conns, {}, map[], {})
  {
  }
}
