/** Tunnels that lead back to themselves: a route through them that flattening does not connect. */
module TunnelCycle {
  import opened Flattening

  function At(idx: nat): Port {
    Port(idx, 0)
  }

  function Wire(from: nat, to: nat): Connection {
    Connection(At(from), At(to))
  }

  /** Elements 0 and 3 are compounds, with inputs 1 and 4 and outputs 2 and 5; 6, 7 and 8 are real. */
  const Compounds := [Compound(0, 1, 2), Compound(3, 4, 5)]

  const Conns := [Wire(6, 0), Wire(0, 3), Wire(1, 2), Wire(4, 0), Wire(7, 2), Wire(1, 8)]

  const RouterId: seq<int> := [-1, -1, -1, -1, -1, -1, 0, 1, 2]

  ghost function Loop(): Net {
    NetOf(Conns, Compounds)
  }

  ghost function In(idx: nat): End {
    End(At(idx), false)
  }

  ghost function Out(idx: nat): End {
    End(At(idx), true)
  }

  lemma FirstCompound()
    ensures NetOf(Conns, Compounds[..0]) == Net(Conns, {}, map[], {})
    ensures NetOf(Conns, Compounds[..1])
        == Net(Conns, {0, 1, 2}, map[(0, false) := 1, (1, true) := 0, (2, false) := 0, (0, true) := 2], {})
  {
    NetStart(Conns);
    hide WithTunnels, NetOf;
    assert Compounds[..0] == [];
    NetStep(Conns, Compounds, 0);
    WithNewTunnels(NetOf(Conns, []), 0, 1, 2);
  }

  lemma LoopIs()
    ensures Loop() == Net(Conns, {0, 1, 2, 3, 4, 5},
        map[(0, false) := 1, (1, true) := 0, (2, false) := 0, (0, true) := 2,
            (3, false) := 4, (4, true) := 3, (5, false) := 3, (3, true) := 5], {})
  {
    hide WithTunnels, NetOf;
    assert Compounds[..2] == Compounds;
    FirstCompound();
    NetStep(Conns, Compounds, 1);
    WithNewTunnels(NetOf(Conns, Compounds[..1]), 3, 4, 5);
  }

  lemma LoopOk()
    ensures NetOk(Loop()) && IdsOk(Loop(), RouterId)
  {
    LoopIs();
    hide NetOf;
    forall idx: nat, out ensures SideOk(Loop(), idx, out) {}
  }

  lemma Ports()
    ensures forall c :: c in Conns ==> c in Loop().conns && c.from in PortsOf(Loop()) && c.to in PortsOf(Loop())
    ensures var ports := PortsOf(Loop());
            && At(0) in ports && At(1) in ports && At(2) in ports && At(3) in ports
            && At(4) in ports && At(6) in ports && At(7) in ports && At(8) in ports
  {
    LoopIs();
    hide NetOf, Loop, PortsOf;
    forall c | c in Conns ensures c.from in PortsOf(Loop()) && c.to in PortsOf(Loop()) { ConnPorts(Loop(), c); }
    assert Conns[0] == Wire(6, 0) && Conns[1] == Wire(0, 3) && Conns[2] == Wire(1, 2);
    assert Conns[3] == Wire(4, 0) && Conns[4] == Wire(7, 2) && Conns[5] == Wire(1, 8);
  }

  // ----- First cuts

  ghost function Pick(e: End, far: Port, c: Connection): seq<Port> {
    if Side(c, !e.out) == far then [Side(c, e.out)] else []
  }

  lemma PickNext(conns: seq<Connection>, c: Connection, net: Net, e: End, far: Port)
    requires Paired(net, e) && Other(net, e).port == far
    ensures FirstCut(conns + [c], net, e) == FirstCut(conns, net, e) + Pick(e, far, c)
  {
    hide Other, Paired;
    assert (conns + [c])[..|conns|] == conns;
  }

  lemma SixPicks(net: Net, e: End, far: Port)
    requires Paired(net, e) && Other(net, e).port == far
    ensures FirstCut(Conns, net, e) == Pick(e, far, Wire(6, 0)) + Pick(e, far, Wire(0, 3)) + Pick(e, far, Wire(1, 2))
        + Pick(e, far, Wire(4, 0)) + Pick(e, far, Wire(7, 2)) + Pick(e, far, Wire(1, 8))
  {
    assert FirstCut([], net, e) == [];
    hide Other, Paired, FirstCut, Pick, Wire;
    var c1 := [Wire(6, 0)];
    var c2 := c1 + [Wire(0, 3)];
    var c3 := c2 + [Wire(1, 2)];
    var c4 := c3 + [Wire(4, 0)];
    var c5 := c4 + [Wire(7, 2)];
    assert Conns == c5 + [Wire(1, 8)] && c1 == [] + [Wire(6, 0)];
    PickNext([], Wire(6, 0), net, e, far);
    PickNext(c1, Wire(0, 3), net, e, far);
    PickNext(c2, Wire(1, 2), net, e, far);
    PickNext(c3, Wire(4, 0), net, e, far);
    PickNext(c4, Wire(7, 2), net, e, far);
    PickNext(c5, Wire(1, 8), net, e, far);
    assert [] + Pick(e, far, Wire(6, 0)) == Pick(e, far, Wire(6, 0));
  }

  lemma Cuts()
    ensures var net := Loop();
            && net.conns == Conns
            && Paired(net, In(0)) && FirstCut(Conns, net, In(0)) == [At(2), At(8)]
            && Paired(net, In(2)) && FirstCut(Conns, net, In(2)) == [At(3)]
            && Paired(net, In(3)) && FirstCut(Conns, net, In(3)) == [At(0)]
            && Paired(net, Out(0)) && FirstCut(Conns, net, Out(0)) == [At(1), At(7)]
            && Paired(net, Out(1)) && FirstCut(Conns, net, Out(1)) == [At(6), At(4)]
            && Paired(net, Out(4)) && FirstCut(Conns, net, Out(4)) == [At(0)]
  {
    LoopIs();
    var net := Loop();
    hide NetOf, Loop, FirstCut;
    SixPicks(net, In(0), At(1));
    SixPicks(net, In(2), At(0));
    SixPicks(net, In(3), At(4));
    SixPicks(net, Out(0), At(2));
    SixPicks(net, Out(1), At(0));
    SixPicks(net, Out(4), At(3));
  }

  // ----- Walks

  lemma WalkOne(net: Net, table: map<End, Entry>, a: Port, out: bool)
    requires a in PortsOf(net)
    ensures AllPorts(net, [a]) && WalkAll(net, table, [a], out) == Walk(net, table, a, out)
  {
    hide Walk, WalkAll, PortsOf;
    assert [a][..1] == [a];
    WalkAllStart(net, table, [a], out);
    WalkAllStep(net, table, [a], 0, out);
    var ports := Walk(net, table, a, out).0;
    assert [] + ports == ports;
  }

  lemma WalkTwo(net: Net, table: map<End, Entry>, a: Port, b: Port, out: bool)
    requires a in PortsOf(net) && b in PortsOf(net)
    ensures AllPorts(net, [a, b])
    ensures var (first, mid) := Walk(net, table, a, out);
            var (second, after) := Walk(net, mid, b, out);
            WalkAll(net, table, [a, b], out) == (first + second, after)
  {
    hide Walk, WalkAll, PortsOf;
    assert [a, b][..1] == [a] && [a, b][..2] == [a, b];
    WalkOne(net, table, a, out);
    WalkAllStep(net, table, [a, b], 1, out);
  }

  /** A new end with one entry in its cut. */
  lemma NewOne(net: Net, table: map<End, Entry>, e: End, a: Port)
    requires NetOk(net) && Paired(net, e) && e.port in PortsOf(net) && e !in table && a in PortsOf(net)
    requires FirstCut(net.conns, net, e) == [a]
    ensures var (ports, after) := Walk(net, table[e := Busy], a, e.out);
            Walk(net, table, e.port, e.out) == (ports, after[e := Done(ports)])
  {
    hide *;
    WalkOne(net, table[e := Busy], a, e.out);
    WalkNew(net, table, e);
  }

  /** A new end with two entries in its cut. */
  lemma NewTwo(net: Net, table: map<End, Entry>, e: End, a: Port, b: Port)
    requires NetOk(net) && Paired(net, e) && e.port in PortsOf(net) && e !in table
    requires a in PortsOf(net) && b in PortsOf(net) && FirstCut(net.conns, net, e) == [a, b]
    ensures var (first, mid) := Walk(net, table[e := Busy], a, e.out);
            var (second, after) := Walk(net, mid, b, e.out);
            Walk(net, table, e.port, e.out) == (first + second, after[e := Done(first + second)])
  {
    hide *;
    WalkTwo(net, table[e := Busy], a, b, e.out);
    WalkNew(net, table, e);
  }

  /** An end of the loop with a single way on, which leads to an end that is being expanded. */
  lemma DeadEnd(net: Net, table: map<End, Entry>, e: End, busy: End)
    requires NetOk(net) && Paired(net, e) && e.port in PortsOf(net) && e !in table && e.out == busy.out
    requires Paired(net, busy) && busy.port in PortsOf(net) && busy in table && table[busy] == Busy
    requires FirstCut(net.conns, net, e) == [busy.port]
    ensures Walk(net, table, e.port, e.out) == ([], table[e := Done([])])
  {
    hide *;
    NewOne(net, table, e, busy.port);
    WalkKnown(net, table[e := Busy], busy);
    assert table[e := Busy][e := Done([])] == table[e := Done([])];
  }

  /** An end whose single way on leads to such an end. */
  lemma NextDeadEnd(net: Net, table: map<End, Entry>, e: End, next: End, busy: End)
    requires NetOk(net) && Paired(net, e) && e.port in PortsOf(net) && e !in table
    requires e.out == next.out == busy.out && e != next && FirstCut(net.conns, net, e) == [next.port]
    requires Paired(net, next) && next.port in PortsOf(net) && next !in table
    requires Paired(net, busy) && busy.port in PortsOf(net) && busy in table && table[busy] == Busy
    requires FirstCut(net.conns, net, next) == [busy.port]
    ensures Walk(net, table, e.port, e.out) == ([], table[next := Done([])][e := Done([])])
  {
    hide *;
    NewOne(net, table, e, next.port);
    DeadEnd(net, table[e := Busy], next, busy);
    assert table[e := Busy][next := Done([])][e := Done([])] == table[next := Done([])][e := Done([])];
  }

  /** What is known after the first connection: the input of compound 0 leads to 8, and the ends met
      behind it lead nowhere, since it was being expanded then. */
  ghost function Known(): map<End, Entry> {
    map[In(3) := Done([]), In(2) := Done([]), In(0) := Done([At(8)])]
  }

  /** What is known after the second connection. */
  ghost function KnownBoth(): map<End, Entry> {
    Known()[Out(4) := Done([])][Out(1) := Done([At(6)])][Out(0) := Done([At(6), At(7)])]
  }

  lemma WalkForward()
    ensures At(0) in PortsOf(Loop()) && Walk(Loop(), map[], At(0), false) == ([At(8)], Known())
  {
    LoopOk();
    Ports();
    Cuts();
    Real();
    hide FirstCut, Walk, Loop, NetOk, PortsOf, Paired, IdsOk;
    var net := Loop();
    var t := map[In(0) := Busy];
    NewTwo(net, map[], In(0), At(2), At(8));
    NextDeadEnd(net, t, In(2), In(3), In(0));
    var t' := t[In(3) := Done([])][In(2) := Done([])];
    WalkReal(net, t', At(8), false);
    assert [] + [At(8)] == [At(8)];
    assert t'[In(0) := Done([At(8)])] == Known();
  }

  lemma Real()
    ensures var tunnel := Loop().tunnel; 6 !in tunnel && 7 !in tunnel && 8 !in tunnel
  {
    LoopIs();
  }

  lemma WalkBackward()
    ensures At(0) in PortsOf(Loop()) && Walk(Loop(), Known(), At(0), true) == ([At(6), At(7)], KnownBoth())
  {
    LoopOk();
    Ports();
    Cuts();
    Real();
    hide FirstCut, Walk, Loop, NetOk, PortsOf, Paired, IdsOk, Known;
    var net := Loop();
    assert Out(0) !in Known() && Out(1) !in Known() && Out(4) !in Known() by { OnlyInputs(); }
    var t := Known()[Out(0) := Busy];
    NewTwo(net, Known(), Out(0), At(1), At(7));
    var u := t[Out(1) := Busy];
    NewTwo(net, t, Out(1), At(6), At(4));
    WalkReal(net, u, At(6), true);
    DeadEnd(net, u, Out(4), Out(0));
    assert [At(6)] + [] == [At(6)] && [At(6)] + [At(7)] == [At(6), At(7)];
    var v := u[Out(4) := Done([])][Out(1) := Done([At(6)])];
    WalkReal(net, v, At(7), true);
    assert v[Out(0) := Done([At(6), At(7)])] == KnownBoth();
  }

  lemma OnlyInputs()
    ensures Out(0) !in Known() && Out(1) !in Known() && Out(4) !in Known()
  {
  }

  // ----- What the connections add

  lemma KnownAre()
    ensures In(2) in KnownBoth() && KnownBoth()[In(2)] == Done([])
    ensures In(3) in KnownBoth() && KnownBoth()[In(3)] == Done([])
    ensures Out(1) in KnownBoth() && KnownBoth()[Out(1)] == Done([At(6)])
    ensures Out(4) in KnownBoth() && KnownBoth()[Out(4)] == Done([])
    ensures In(0) in KnownBoth() && KnownBoth()[In(0)] == Done([At(8)])
  {
  }

  lemma {:induction false} NoPairs(from: seq<Port>)
    ensures Product(from, [], RouterId) == [] && Product([], from, RouterId) == []
  {
    if from != [] { NoPairs(from[..|from| - 1]); }
  }

  lemma OnePair(a: Port, b: Port)
    requires Live(RouterId, a) && Live(RouterId, b)
    ensures Product([a], [b], RouterId) == [Connection(a, b)]
  {
    assert [a][..0] == [] && [b][..0] == [];
    assert Row(a, [b], RouterId) == [] + [Connection(a, b)];
  }

  lemma FirstAdds()
    ensures Wire(6, 0) in Loop().conns
    ensures AddedBy(Loop(), RouterId, map[], Wire(6, 0)) == ([Wire(6, 8)], Known())
  {
    Ports();
    Real();
    assert Conns[0] == Wire(6, 0);
    hide FirstCut, Walk, Loop, PortsOf, Product, Known;
    WalkReal(Loop(), map[], At(6), true);
    WalkForward();
    OnePair(At(6), At(8));
  }

  lemma SecondAdds()
    ensures Wire(0, 3) in Loop().conns
    ensures AddedBy(Loop(), RouterId, Known(), Wire(0, 3)) == ([], KnownBoth())
  {
    Ports();
    Cuts();
    LoopOk();
    KnownAre();
    assert Conns[1] == Wire(0, 3);
    hide FirstCut, Walk, Loop, PortsOf, Product, Known, KnownBoth, NetOk, Paired, IdsOk;
    WalkBackward();
    WalkKnown(Loop(), KnownBoth(), In(3));
    NoPairs([At(6), At(7)]);
  }

  lemma OthersAdd()
    ensures Wire(1, 2) in Loop().conns && AddedBy(Loop(), RouterId, KnownBoth(), Wire(1, 2)) == ([], KnownBoth())
    ensures Wire(4, 0) in Loop().conns && AddedBy(Loop(), RouterId, KnownBoth(), Wire(4, 0)) == ([], KnownBoth())
    ensures Wire(7, 2) in Loop().conns && AddedBy(Loop(), RouterId, KnownBoth(), Wire(7, 2)) == ([], KnownBoth())
    ensures Wire(1, 8) in Loop().conns
    ensures AddedBy(Loop(), RouterId, KnownBoth(), Wire(1, 8)) == ([Wire(6, 8)], KnownBoth())
  {
    Ports();
    Cuts();
    LoopOk();
    KnownAre();
    Real();
    assert Conns[2] == Wire(1, 2) && Conns[3] == Wire(4, 0) && Conns[4] == Wire(7, 2) && Conns[5] == Wire(1, 8);
    hide FirstCut, Walk, Loop, PortsOf, Product, Known, KnownBoth, NetOk, Paired, IdsOk;
    var net, table := Loop(), KnownBoth();
    WalkKnown(net, table, Out(1));
    WalkKnown(net, table, Out(4));
    WalkKnown(net, table, In(2));
    WalkKnown(net, table, In(0));
    WalkReal(net, table, At(7), true);
    WalkReal(net, table, At(8), false);
    NoPairs([At(6)]);
    NoPairs([At(7)]);
    NoPairs([At(8)]);
    OnePair(At(6), At(8));
  }

  lemma AllAdded()
    ensures |Loop().conns| == 6 && Added(Loop(), RouterId, 6).0 == [Wire(6, 8), Wire(6, 8)]
  {
    LoopIs();
    FirstAdds();
    SecondAdds();
    OthersAdd();
    var net := Loop();
    hide Loop, NetOf, AddedBy, Known, KnownBoth, Added;
    AddedStart(net, RouterId);
    AddedMore(net, RouterId, 0, [Wire(6, 8)], Known());
    AddedMore(net, RouterId, 1, [], KnownBoth());
    AddedMore(net, RouterId, 2, [], KnownBoth());
    AddedMore(net, RouterId, 3, [], KnownBoth());
    AddedMore(net, RouterId, 4, [], KnownBoth());
    AddedMore(net, RouterId, 5, [Wire(6, 8)], KnownBoth());
  }

  /** Element 7 is joined to element 8 by a route through the tunnels, and they are not connected:
      without the condition that no tunnel leads back to itself, routes are lost. */
  lemma RouteLost()
    ensures RouteBetween(Loop(), [Wire(7, 2), Wire(0, 3), Wire(4, 0), Wire(1, 8)], At(7), At(8))
    ensures Live(RouterId, At(7)) && Live(RouterId, At(8))
    ensures forall w :: w in Wires(Loop(), RouterId) <==> w == Wire(6, 8)
    ensures !NoTunnelCycle(Loop())
  {
    LostRoute();
    LoopCycle();
    AllAdded();
    LoopIs();
    var net := Loop();
    hide Loop, NetOf, Added, LiveOf, RouteBetween, NoTunnelCycle;
    WiresAre(net, RouterId);
    forall w ensures w in Wires(net, RouterId) <==> w == Wire(6, 8) {
      LiveOfMembers(net.conns + [Wire(6, 8), Wire(6, 8)], RouterId, w);
      assert (net.conns + [Wire(6, 8), Wire(6, 8)])[6] == Wire(6, 8);
    }
  }

  lemma LostRoute()
    ensures RouteBetween(Loop(), [Wire(7, 2), Wire(0, 3), Wire(4, 0), Wire(1, 8)], At(7), At(8))
  {
    LoopIs();
    hide NetOf, Loop;
    assert Conns[4] == Wire(7, 2) && Conns[1] == Wire(0, 3) && Conns[3] == Wire(4, 0) && Conns[5] == Wire(1, 8);
  }

  lemma LoopCycle()
    ensures !NoTunnelCycle(Loop())
  {
    LoopIs();
    hide NetOf, Loop;
    var r := [Wire(1, 2), Wire(0, 3), Wire(4, 0)];
    assert Conns[2] == Wire(1, 2) && Conns[1] == Wire(0, 3) && Conns[3] == Wire(4, 0);
    assert Route(Loop(), r) && Joined(Loop(), r[2], r[0]);
  }

  lemma LoopDeclarable()
    ensures Declarable(Conns, Compounds) && forall k :: 0 <= k < |Compounds| ==> ThreeElements(Compounds[k])
  {
    hide NetOf;
    FirstCompound();
    forall k | 0 <= k < |Compounds| ensures DeclarableAt(Conns, Compounds, k) {
      assert k == 0 || k == 1;
    }
  }

  /** The same as a run of the program. */
  method FlattenLoop() returns (wires: seq<Connection>)
    ensures Linked(NetOf(Conns, Compounds), At(7), At(8)) && Live(RouterId, At(7)) && Live(RouterId, At(8))
    ensures Connection(At(7), At(8)) !in wires
  {
    LoopDeclarable();
    LoopOk();
    RouteLost();
    hide NetOf, NetOk, IdsOk, Declarable, Wires, RouteBetween, WiresRight, Safe;
    var declared, ok;
    declared, ok, wires := FlattenRouter(Conns, Compounds, RouterId);
  }
}
