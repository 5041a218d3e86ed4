/** One connection statement of the configuration language: comma-separated elements with port
    lists on both sides, some port lists expandable, become port-to-port connections.

    A list of groups is a sequence; a port list ends in -1 when it is expandable. */
module Connections {

  datatype Group = Group(elem: nat, inputs: seq<int>, outputs: seq<int>)

  /** One port of one element. */
  datatype Ref = Ref(elem: nat, port: int)

  function Ports(g: Group, out: bool): seq<int> {
    if out then g.outputs else g.inputs
  }

  /** Port numbers are not negative; a final -1 follows at least one port. */
  predicate PortsOk(p: seq<int>) {
    forall i :: 0 <= i < |p| ==> p[i] >= 0 || (p[i] == -1 && 1 <= i == |p| - 1)
  }

  ghost predicate GroupsOk(x: seq<Group>) {
    forall i :: 0 <= i < |x| ==> PortsOk(x[i].inputs) && PortsOk(x[i].outputs)
  }

  predicate Open(p: seq<int>) {
    |p| > 1 && p[|p| - 1] == -1
  }

  // ----- Counting ports

  /** The ports a list names; a missing list names port 0. */
  function Size(p: seq<int>): (n: nat)
    ensures n >= 1
  {
    if |p| <= 1 then 1 else if p[|p| - 1] == -1 then |p| - 1 else |p|
  }

  function MinPorts(x: seq<Group>, out: bool): nat {
    if x == [] then 0 else MinPorts(x[..|x| - 1], out) + Size(Ports(x[|x| - 1], out))
  }

  function OpenCount(x: seq<Group>, out: bool): nat {
    if x == [] then 0 else OpenCount(x[..|x| - 1], out) + if Open(Ports(x[|x| - 1], out)) then 1 else 0
  }

  /** `yconnection_analyze_ports`. */
  method AnalyzePorts(x: seq<Group>, out: bool) returns (minPorts: nat, expandable: nat)
    ensures minPorts == MinPorts(x, out) && expandable == OpenCount(x, out)
  {
    minPorts, expandable := 0, 0;
    var i := 0;
    while i < |x|
      invariant 0 <= i <= |x|
      invariant minPorts == MinPorts(x[..i], out) && expandable == OpenCount(x[..i], out)
    {
      assert x[..i + 1][..i] == x[..i];
      var p := Ports(x[i], out);
      if |p| <= 1 {
        minPorts := minPorts + 1;
      } else if p[|p| - 1] == -1 {
        minPorts := minPorts + |p| - 1;
        expandable := expandable + 1;
      } else {
        minPorts := minPorts + |p|;
      }
      i := i + 1;
    }
    assert x[..i] == x;
  }

  // ----- The flattened port list

  /** A list can be expanded if it says so, or if it is the missing list of a lone element. */
  predicate Expandable(p: seq<int>, minPorts: nat) {
    Open(p) || (p == [] && minPorts == 1)
  }

  /** The port at position `i` of a list, continued by consecutive numbers past its end. */
  function PortAt(p: seq<int>, i: nat): int {
    if p == [] then i else if i < Size(p) then p[i] else p[Size(p) - 1] + (i - (Size(p) - 1))
  }

  function Run(elem: nat, p: seq<int>, from: nat, count: nat): (r: seq<Ref>)
    ensures |r| == count
    decreases count
  {
    if count == 0 then [] else [Ref(elem, PortAt(p, from))] + Run(elem, p, from + 1, count - 1)
  }

  /** All ports of all groups, the first expandable list padded by `extra` ports. */
  function Flat(x: seq<Group>, out: bool, minPorts: nat, extra: nat): seq<Ref> {
    if x == [] then []
    else
      var p := Ports(x[0], out);
      if Expandable(p, minPorts) then Run(x[0].elem, p, 0, Size(p) + extra) + Flat(x[1..], out, minPorts, 0)
      else Run(x[0].elem, p, 0, Size(p)) + Flat(x[1..], out, minPorts, extra)
  }

  ghost predicate SomeExpandable(x: seq<Group>, out: bool, minPorts: nat) {
    exists i :: 0 <= i < |x| && Expandable(Ports(x[i], out), minPorts)
  }

  lemma {:induction false} MinPortsFirst(x: seq<Group>, out: bool)
    requires x != []
    ensures MinPorts(x, out) == Size(Ports(x[0], out)) + MinPorts(x[1..], out)
    decreases |x|
  {
    if |x| > 1 {
      MinPortsFirst(x[..|x| - 1], out);
      assert x[..|x| - 1][1..] == x[1..][..|x| - 2];
      assert x[1..][|x| - 2] == x[|x| - 1];
    }
  }

  lemma {:induction false} FlatLength(x: seq<Group>, out: bool, minPorts: nat, extra: nat)
    ensures |Flat(x, out, minPorts, extra)| == MinPorts(x, out) + if SomeExpandable(x, out, minPorts) then extra else 0
    decreases |x|
  {
    if x != [] {
      MinPortsFirst(x, out);
      var e := Expandable(Ports(x[0], out), minPorts);
      FlatLength(x[1..], out, minPorts, if e then 0 else extra);
      if SomeExpandable(x[1..], out, minPorts) {
        var i :| 0 <= i < |x[1..]| && Expandable(Ports(x[1..][i], out), minPorts);
        assert x[i + 1] == x[1..][i];
      }
      if !e && SomeExpandable(x, out, minPorts) {
        var i :| 0 <= i < |x| && Expandable(Ports(x[i], out), minPorts);
        assert x[1..][i - 1] == x[i];
      }
    }
  }

  // ----- The cursor

  /** Group, position in its port list, current port (negative before it is looked up), and the
      ports still to be added. */
  datatype Cursor = Cursor(g: nat, pos: nat, port: int, extra: int)

  function Step(x: seq<Group>, out: bool, minPorts: nat, c: Cursor): Cursor
    requires c.g < |x| && PortsOk(Ports(x[c.g], out))
  {
    var p := Ports(x[c.g], out);
    var pos := c.pos + 1;
    if pos < |p| && p[pos] >= 0 then Cursor(c.g, pos, p[pos], c.extra)
    else if |p| > 0 && p[|p| - 1] == -1 && c.extra > 0 then
      Cursor(c.g, pos, p[|p| - 2] + pos - (|p| - 2), c.extra - 1)
    else if |p| == 0 && minPorts == 1 && c.extra > 0 then Cursor(c.g, pos, pos, c.extra - 1)
    else Cursor(c.g + 1, 0, -1, c.extra)
  }

  function Current(x: seq<Group>, out: bool, c: Cursor): Ref
    requires c.g < |x|
  {
    var p := Ports(x[c.g], out);
    Ref(x[c.g].elem, if c.port >= 0 then c.port else if p != [] then p[0] else 0)
  }

  /** The cursor's port is the one its position calls for. */
  ghost predicate CursorOk(x: seq<Group>, out: bool, c: Cursor) {
    && c.g <= |x|
    && (c.g < |x| ==>
         var p := Ports(x[c.g], out);
         Current(x, out, c) == Ref(x[c.g].elem, PortAt(p, c.pos)) && (c.pos >= Size(p) ==> p == [] || Open(p)))
  }

  function Positive(n: int): nat {
    if n > 0 then n else 0
  }

  /** Ports left in the current list, and ports left to add after it. */
  function Left(p: seq<int>, minPorts: nat, pos: nat, extra: int): (n: nat)
    ensures n > 0
  {
    (if pos < Size(p) then Size(p) - pos else 1) + if Expandable(p, minPorts) then Positive(extra) else 0
  }

  function Later(p: seq<int>, minPorts: nat, extra: int): nat {
    if Expandable(p, minPorts) then 0 else Positive(extra)
  }

  /** What the cursor has still to deliver. */
  ghost function Rest(x: seq<Group>, out: bool, minPorts: nat, c: Cursor): seq<Ref> {
    if c.g >= |x| then []
    else
      var p := Ports(x[c.g], out);
      Run(x[c.g].elem, p, c.pos, Left(p, minPorts, c.pos, c.extra))
      + Flat(x[c.g + 1..], out, minPorts, Later(p, minPorts, c.extra))
  }

  lemma RestStart(x: seq<Group>, out: bool, minPorts: nat, g: nat, extra: int)
    requires g <= |x|
    ensures Rest(x, out, minPorts, Cursor(g, 0, -1, extra)) == Flat(x[g..], out, minPorts, Positive(extra))
    ensures CursorOk(x, out, Cursor(g, 0, -1, extra))
  {
    if g < |x| {
      assert x[g..][0] == x[g] && x[g..][1..] == x[g + 1..];
    }
  }

  lemma RunStep(elem: nat, p: seq<int>, from: nat, count: nat, tail: seq<Ref>)
    requires count > 0
    ensures Run(elem, p, from, count) + tail
        == [Ref(elem, PortAt(p, from))] + (Run(elem, p, from + 1, count - 1) + tail)
  {
  }

  /** A step stays in the list exactly while ports are left in it. */
  lemma StepInList(x: seq<Group>, out: bool, minPorts: nat, c: Cursor)
    requires c.g < |x| && PortsOk(Ports(x[c.g], out)) && CursorOk(x, out, c)
    ensures var p := Ports(x[c.g], out);
            var next := Step(x, out, minPorts, c);
            if Left(p, minPorts, c.pos, c.extra) > 1 then
              && next.g == c.g && next.pos == c.pos + 1 && next.port == PortAt(p, next.pos) >= 0
              && Left(p, minPorts, next.pos, next.extra) == Left(p, minPorts, c.pos, c.extra) - 1
              && Later(p, minPorts, next.extra) == Later(p, minPorts, c.extra)
              && (next.pos >= Size(p) ==> p == [] || Open(p))
            else next == Cursor(c.g + 1, 0, -1, c.extra) && Later(p, minPorts, c.extra) == Positive(c.extra)
  {
  }

  /** The cursor delivers its current port, then the rest. */
  lemma RestStep(x: seq<Group>, out: bool, minPorts: nat, c: Cursor)
    requires GroupsOk(x) && c.g < |x| && CursorOk(x, out, c)
    ensures PortsOk(Ports(x[c.g], out))
    ensures Rest(x, out, minPorts, c) == [Current(x, out, c)] + Rest(x, out, minPorts, Step(x, out, minPorts, c))
    ensures CursorOk(x, out, Step(x, out, minPorts, c))
  {
    hide Flat, Run, Step, PortAt, Size, Left, Later, PortsOk;
    var p := Ports(x[c.g], out);
    assert PortsOk(x[c.g].inputs) && PortsOk(x[c.g].outputs);
    var next := Step(x, out, minPorts, c);
    StepInList(x, out, minPorts, c);
    var tail := Flat(x[c.g + 1..], out, minPorts, Later(p, minPorts, c.extra));
    RunStep(x[c.g].elem, p, c.pos, Left(p, minPorts, c.pos, c.extra), tail);
    if Left(p, minPorts, c.pos, c.extra) == 1 {
      RestStart(x, out, minPorts, next.g, next.extra);
      RunNone(x[c.g].elem, p, c.pos + 1, tail);
    }
  }

  lemma RunNone(elem: nat, p: seq<int>, from: nat, tail: seq<Ref>)
    ensures Run(elem, p, from, 0) + tail == tail
  {
  }

  // ----- Pairing the two sides

  /** The pairs the loop emits: a side that does not step stays where it is. */
  ghost function Emitted(outs: seq<Ref>, ins: seq<Ref>, stepOut: bool, stepIn: bool): seq<(Ref, Ref)>
    requires stepOut || stepIn
    decreases |outs| + |ins|
  {
    if outs == [] || ins == [] then []
    else
      [(outs[0], ins[0])]
      + Emitted(if stepOut then outs[1..] else outs, if stepIn then ins[1..] else ins, stepOut, stepIn)
  }

  /** Port `i` of a side; a single port is used again and again. */
  function Nth(refs: seq<Ref>, i: nat): Ref
    requires refs != [] && (|refs| == 1 || i < |refs|)
  {
    if |refs| == 1 then refs[0] else refs[i]
  }

  /** The pairwise zip, a single port being repeated. */
  ghost predicate Zipped(conns: seq<(Ref, Ref)>, outs: seq<Ref>, ins: seq<Ref>) {
    && outs != [] && ins != []
    && (|outs| == |ins| || |outs| == 1 || |ins| == 1)
    && |conns| == (if |outs| >= |ins| then |outs| else |ins|)
    && forall i :: 0 <= i < |conns| ==> conns[i] == (Nth(outs, i), Nth(ins, i))
  }

  lemma {:induction false} EmittedBoth(outs: seq<Ref>, ins: seq<Ref>)
    requires |outs| == |ins|
    ensures |Emitted(outs, ins, true, true)| == |outs|
    ensures forall i :: 0 <= i < |outs| ==> Emitted(outs, ins, true, true)[i] == (outs[i], ins[i])
    decreases |outs|
  {
    if outs != [] { EmittedBoth(outs[1..], ins[1..]); }
  }

  lemma {:induction false} EmittedOut(outs: seq<Ref>, ins: seq<Ref>)
    requires ins != []
    ensures |Emitted(outs, ins, true, false)| == |outs|
    ensures forall i :: 0 <= i < |outs| ==> Emitted(outs, ins, true, false)[i] == (outs[i], ins[0])
    decreases |outs|
  {
    if outs != [] { EmittedOut(outs[1..], ins); }
  }

  lemma {:induction false} EmittedIn(outs: seq<Ref>, ins: seq<Ref>)
    requires outs != []
    ensures |Emitted(outs, ins, false, true)| == |ins|
    ensures forall i :: 0 <= i < |ins| ==> Emitted(outs, ins, false, true)[i] == (outs[0], ins[i])
    decreases |ins|
  {
    if ins != [] { EmittedIn(outs, ins[1..]); }
  }

  lemma EmittedZips(outs: seq<Ref>, ins: seq<Ref>, stepOut: bool, stepIn: bool)
    requires outs != [] && ins != [] && (stepOut || stepIn)
    requires stepOut && stepIn ==> |outs| == |ins|
    requires (!stepOut ==> |outs| == 1) && (!stepIn ==> |ins| == 1)
    ensures Zipped(Emitted(outs, ins, stepOut, stepIn), outs, ins)
  {
    if stepOut && stepIn { EmittedBoth(outs, ins); }
    else if stepOut { EmittedOut(outs, ins); }
    else { EmittedIn(outs, ins); }
  }

  // ----- What a connection means

  /** Whether a side may be padded: one of its lists is expandable, or the statement uses the
      double arrow and the side is a lone element without a port list facing several ports. */
  predicate MayExpand(x: seq<Group>, out: bool, other: seq<Group>, doubleArrow: bool) {
    || OpenCount(x, out) > 0
    || (doubleArrow && x != [] && MinPorts(x, out) == 1 && MinPorts(other, !out) > 1 && Ports(x[0], out) == [])
  }

  /** One side's ports, padded towards the length of the other side if it may be. */
  function SidePorts(x: seq<Group>, out: bool, other: seq<Group>, doubleArrow: bool): seq<Ref> {
    Flat(x, out, MinPorts(x, out),
         if MayExpand(x, out, other, doubleArrow) then Positive(MinPorts(other, !out) - MinPorts(x, out)) else 0)
  }

  lemma {:induction false} OpenSomewhere(x: seq<Group>, out: bool, minPorts: nat)
    requires OpenCount(x, out) > 0
    ensures SomeExpandable(x, out, minPorts)
    decreases |x|
  {
    var m := |x| - 1;
    if Open(Ports(x[m], out)) {
      assert Expandable(Ports(x[m], out), minPorts);
    } else {
      OpenSomewhere(x[..m], out, minPorts);
      var i :| 0 <= i < |x[..m]| && Expandable(Ports(x[..m][i], out), minPorts);
      assert x[i] == x[..m][i];
    }
  }

  lemma SideLength(x: seq<Group>, out: bool, other: seq<Group>, doubleArrow: bool)
    ensures var min, max := MinPorts(x, out), MinPorts(other, !out);
            |SidePorts(x, out, other, doubleArrow)| ==
            if MayExpand(x, out, other, doubleArrow) && max > min then max else min
  {
    var min := MinPorts(x, out);
    FlatLength(x, out, min, if MayExpand(x, out, other, doubleArrow) then Positive(MinPorts(other, !out) - min) else 0);
    if MayExpand(x, out, other, doubleArrow) {
      if OpenCount(x, out) > 0 {
        OpenSomewhere(x, out, min);
      } else {
        assert Expandable(Ports(x[0], out), min);
      }
    }
  }

  lemma {:induction false} MinPortsPositive(x: seq<Group>, out: bool)
    ensures MinPorts(x, out) >= |x|
    decreases |x|
  {
    if x != [] { MinPortsPositive(x[..|x| - 1], out); }
  }

  /** A side that is one port, used over and over. */
  predicate Single(x: seq<Group>, out: bool, other: seq<Group>, doubleArrow: bool) {
    MinPorts(x, out) <= 1 && !MayExpand(x, out, other, doubleArrow)
  }

  /** When a connection is accepted: at most one expandable list, and either one side is a single
      port or the double arrow joins sides of the same length. */
  predicate Consistent(outputs: seq<Group>, inputs: seq<Group>, doubleArrow: bool) {
    && OpenCount(outputs, true) + OpenCount(inputs, false) <= 1
    && (|| Single(outputs, true, inputs, doubleArrow) || Single(inputs, false, outputs, doubleArrow)
        || (doubleArrow && |SidePorts(outputs, true, inputs, doubleArrow)|
            == |SidePorts(inputs, false, outputs, doubleArrow)|))
  }

  /** `yconnection_connect_all`.  Without an error the connections are the pairwise zip of the two
      sides' ports. */
  method ConnectAll(outputs: seq<Group>, inputs: seq<Group>, doubleArrow: bool)
    returns (conns: seq<(Ref, Ref)>, errors: nat)
    requires GroupsOk(outputs) && GroupsOk(inputs)
    ensures errors == 0 <==> Consistent(outputs, inputs, doubleArrow)
    ensures forall n :: 0 <= n < |conns| ==> FromOutputs(outputs, conns[n].0) && FromInputs(inputs, conns[n].1)
    ensures errors == 0 && outputs != [] && inputs != [] ==>
              Zipped(conns, SidePorts(outputs, true, inputs, doubleArrow),
                  SidePorts(inputs, false, outputs, doubleArrow))
  {
    hide Flat, SomeExpandable, MinPorts, OpenCount, GroupsOk, Zipped, Emitted, FromOutputs, FromInputs;
    errors := 0;
    var minOut, expOut := AnalyzePorts(outputs, true);
    var minIn, expIn := AnalyzePorts(inputs, false);
    SideLength(outputs, true, inputs, doubleArrow);
    SideLength(inputs, false, outputs, doubleArrow);
    MinPortsPositive(outputs, true);
    MinPortsPositive(inputs, false);
    if expIn + expOut > 1 {
      errors := errors + 1;
      if minIn < minOut { expOut := 0; } else { expIn := 0; }
    }
    if doubleArrow {
      if minIn == 1 && minOut > 1 && Missing(inputs, false) { expIn := 1; }
      if minOut == 1 && minIn > 1 && Missing(outputs, true) { expOut := 1; }
    }
    var stepIn, stepOut := minIn > 1 || expIn > 0, minOut > 1 || expOut > 0;
    var extraIn := if expIn > 0 then minOut - minIn else 0;
    var extraOut := if expOut > 0 then minIn - minOut else 0;
    if stepIn && stepOut {
      if !doubleArrow { errors := errors + 1; }
      if expIn == 0 && expOut == 0 && minIn != minOut { errors := errors + 1; }
      else if expIn == 0 && minIn < minOut { errors := errors + 1; }
      else if expOut == 0 && minOut < minIn { errors := errors + 1; }
    } else if !stepIn && !stepOut {
      stepIn := true;
    }
    conns := Pair(outputs, inputs, minOut, minIn, extraOut, extraIn, stepOut, stepIn);
    EmittedFrom(outputs, inputs, minOut, minIn, Positive(extraOut), Positive(extraIn), stepOut, stepIn);
    if errors == 0 && outputs != [] && inputs != [] {
      EmittedZips(SidePorts(outputs, true, inputs, doubleArrow), SidePorts(inputs, false, outputs, doubleArrow),
          stepOut, stepIn);
    }
  }

  predicate Missing(x: seq<Group>, out: bool) {
    x != [] && Ports(x[0], out) == []
  }

  /** The connecting loop. */
  method Pair(outputs: seq<Group>, inputs: seq<Group>, minOut: nat, minIn: nat, extraOut: int, extraIn: int,
              stepOut: bool, stepIn: bool) returns (conns: seq<(Ref, Ref)>)
    requires GroupsOk(outputs) && GroupsOk(inputs) && (stepOut || stepIn)
    ensures conns == Emitted(Flat(outputs, true, minOut, Positive(extraOut)),
        Flat(inputs, false, minIn, Positive(extraIn)), stepOut, stepIn)
  {
    hide Rest, CursorOk, GroupsOk, Flat, Current, Step;
    var co, ci := Cursor(0, 0, -1, extraOut), Cursor(0, 0, -1, extraIn);
    conns := [];
    RestStart(outputs, true, minOut, 0, extraOut);
    RestStart(inputs, false, minIn, 0, extraIn);
    assert outputs[0..] == outputs && inputs[0..] == inputs;
    ghost var all := Emitted(Flat(outputs, true, minOut, Positive(extraOut)),
        Flat(inputs, false, minIn, Positive(extraIn)), stepOut, stepIn);
    RestEmpty(outputs, true, minOut, co);
    RestEmpty(inputs, false, minIn, ci);
    while ci.g != |inputs| && co.g != |outputs|
      invariant co.g <= |outputs| && ci.g <= |inputs|
      invariant CursorOk(outputs, true, co) && CursorOk(inputs, false, ci)
      invariant (Rest(outputs, true, minOut, co) == []) == (co.g == |outputs|)
      invariant (Rest(inputs, false, minIn, ci) == []) == (ci.g == |inputs|)
      invariant conns + Emitted(Rest(outputs, true, minOut, co), Rest(inputs, false, minIn, ci), stepOut, stepIn) == all
      decreases |Rest(outputs, true, minOut, co)| + |Rest(inputs, false, minIn, ci)|
    {
      ghost var ro, ri := Rest(outputs, true, minOut, co), Rest(inputs, false, minIn, ci);
      RestStep(outputs, true, minOut, co);
      RestStep(inputs, false, minIn, ci);
      var o, i := Current(outputs, true, co), Current(inputs, false, ci);
      conns := conns + [(o, i)];
      ghost var ro1 := if stepOut then ro[1..] else ro;
      ghost var ri1 := if stepIn then ri[1..] else ri;
      assert Emitted(ro, ri, stepOut, stepIn) == [(o, i)] + Emitted(ro1, ri1, stepOut, stepIn);
      if stepOut {
        co := Step(outputs, true, minOut, co);
        CursorBound(outputs, true, co);
        RestEmpty(outputs, true, minOut, co);
      }
      if stepIn {
        ci := Step(inputs, false, minIn, ci);
        CursorBound(inputs, false, ci);
        RestEmpty(inputs, false, minIn, ci);
      }
    }
  }

  lemma CursorBound(x: seq<Group>, out: bool, c: Cursor)
    requires CursorOk(x, out, c)
    ensures c.g <= |x|
  {
  }

  lemma RestEmpty(x: seq<Group>, out: bool, minPorts: nat, c: Cursor)
    requires c.g <= |x|
    ensures Rest(x, out, minPorts, c) == [] <==> c.g == |x|
  {
  }

  // ----- In terms of the port lists as written

  /** Number `port` is at position `j` of a port list: the one listed there, behind a final -1 the
      last one listed and as many more as there are positions between, and without a list `j`. */
  ghost predicate IsPort(list: seq<int>, j: nat, port: int) {
    || (list == [] && port == j)
    || (j < |list| && list[j] >= 0 && port == list[j])
    || (|list| > 1 && list[|list| - 1] == -1 && j >= |list| - 1 && port == list[|list| - 2] + (j - (|list| - 2)))
  }

  ghost predicate FromOutputs(x: seq<Group>, r: Ref) {
    exists k, j: nat :: 0 <= k < |x| && r.elem == x[k].elem && IsPort(x[k].outputs, j, r.port)
  }

  ghost predicate FromInputs(x: seq<Group>, r: Ref) {
    exists k, j: nat :: 0 <= k < |x| && r.elem == x[k].elem && IsPort(x[k].inputs, j, r.port)
  }

  lemma {:induction false} RunAt(elem: nat, p: seq<int>, from: nat, count: nat, i: nat)
    requires i < count
    ensures Run(elem, p, from, count)[i] == Ref(elem, PortAt(p, from + i))
    decreases count
  {
    hide PortAt;
    if i > 0 {
      RunAt(elem, p, from + 1, count - 1, i - 1);
    }
  }

  lemma PortIs(p: seq<int>, j: nat)
    requires PortsOk(p) && (j < Size(p) || p == [] || Open(p))
    ensures IsPort(p, j, PortAt(p, j))
  {
  }

  lemma {:induction false} FlatFrom(x: seq<Group>, out: bool, minPorts: nat, extra: nat, i: nat)
    requires GroupsOk(x) && i < |Flat(x, out, minPorts, extra)|
    ensures var r := Flat(x, out, minPorts, extra)[i]; if out then FromOutputs(x, r) else FromInputs(x, r)
    decreases |x|
  {
    hide IsPort, PortsOk, Size, PortAt;
    var p, r := Ports(x[0], out), Flat(x, out, minPorts, extra)[i];
    var e := Expandable(p, minPorts);
    var n := if e then Size(p) + extra else Size(p);
    assert PortsOk(x[0].inputs) && PortsOk(x[0].outputs);
    if i < n {
      RunAt(x[0].elem, p, 0, n, i);
      PortIs(p, i);
      assert IsPort(if out then x[0].outputs else x[0].inputs, i, r.port);
    } else {
      var rest := x[1..];
      assert GroupsOk(rest) by { RestOk(x); }
      FlatFrom(rest, out, minPorts, if e then 0 else extra, i - n);
      if out {
        var k, j: nat :| 0 <= k < |rest| && r.elem == rest[k].elem && IsPort(rest[k].outputs, j, r.port);
        assert x[k + 1] == rest[k];
      } else {
        var k, j: nat :| 0 <= k < |rest| && r.elem == rest[k].elem && IsPort(rest[k].inputs, j, r.port);
        assert x[k + 1] == rest[k];
      }
    }
  }

  lemma RestOk(x: seq<Group>)
    requires GroupsOk(x) && x != []
    ensures GroupsOk(x[1..])
  {
    hide PortsOk;
  }

  lemma {:induction false} EmittedMembers(outs: seq<Ref>, ins: seq<Ref>, stepOut: bool, stepIn: bool, n: nat)
    requires (stepOut || stepIn) && n < |Emitted(outs, ins, stepOut, stepIn)|
    ensures var e := Emitted(outs, ins, stepOut, stepIn)[n]; e.0 in outs && e.1 in ins
    decreases |outs| + |ins|
  {
    if n > 0 {
      EmittedMembers(if stepOut then outs[1..] else outs, if stepIn then ins[1..] else ins, stepOut, stepIn, n - 1);
    }
  }

  /** Whatever is connected is written in the statement, outputs on the left, inputs on the right. */
  lemma EmittedFrom(outputs: seq<Group>, inputs: seq<Group>, minOut: nat, minIn: nat, extraOut: nat, extraIn: nat,
                    stepOut: bool, stepIn: bool)
    requires GroupsOk(outputs) && GroupsOk(inputs) && (stepOut || stepIn)
    ensures var conns := Emitted(Flat(outputs, true, minOut, extraOut), Flat(inputs, false, minIn, extraIn),
                                 stepOut, stepIn);
            forall n :: 0 <= n < |conns| ==> FromOutputs(outputs, conns[n].0) && FromInputs(inputs, conns[n].1)
  {
    hide Flat, Emitted, FromOutputs, FromInputs, GroupsOk;
    var outs, ins := Flat(outputs, true, minOut, extraOut), Flat(inputs, false, minIn, extraIn);
    var conns := Emitted(outs, ins, stepOut, stepIn);
    forall n | 0 <= n < |conns| ensures FromOutputs(outputs, conns[n].0) && FromInputs(inputs, conns[n].1) {
      EmittedMembers(outs, ins, stepOut, stepIn, n);
      var a :| 0 <= a < |outs| && outs[a] == conns[n].0;
      FlatFrom(outputs, true, minOut, extraOut, a);
      var b :| 0 <= b < |ins| && ins[b] == conns[n].1;
      FlatFrom(inputs, false, minIn, extraIn, b);
    }
  }

  ghost predicate Closed(p: seq<int>) {
    p != [] && forall i :: 0 <= i < |p| ==> p[i] >= 0
  }

  /** What a single element with a port list stands for: the ports listed, or port 0. */
  lemma OneClosed(g: Group, out: bool, minPorts: nat)
    ensures Closed(g.outputs) ==>
        Flat([g], true, minPorts, 0) == seq(|g.outputs|, i requires 0 <= i < |g.outputs| => Ref(g.elem, g.outputs[i]))
    ensures Closed(g.inputs) ==>
        Flat([g], false, minPorts, 0) == seq(|g.inputs|, i requires 0 <= i < |g.inputs| => Ref(g.elem, g.inputs[i]))
    ensures g.outputs == [] ==> Flat([g], true, minPorts, 0) == [Ref(g.elem, 0)]
    ensures g.inputs == [] ==> Flat([g], false, minPorts, 0) == [Ref(g.elem, 0)]
  {
    FlatOne(g, true, minPorts, 0);
    FlatOne(g, false, minPorts, 0);
  }

  lemma FlatOne(g: Group, out: bool, minPorts: nat, extra: nat)
    ensures var p := Ports(g, out);
            var n := Size(p) + if Expandable(p, minPorts) then extra else 0;
            var f := Flat([g], out, minPorts, extra);
            |f| == n && forall i :: 0 <= i < n ==> f[i] == Ref(g.elem, PortAt(p, i))
  {
    var p := Ports(g, out);
    var n := Size(p) + if Expandable(p, minPorts) then extra else 0;
    assert [g][1..] == [];
    assert Flat([g], out, minPorts, extra) == Run(g.elem, p, 0, n) + [];
    forall i | 0 <= i < n ensures Run(g.elem, p, 0, n)[i] == Ref(g.elem, PortAt(p, i)) {
      RunAt(g.elem, p, 0, n, i);
    }
  }

  /** Elements separated by commas: their ports follow each other. */
  lemma {:induction false} FlatAppend(x: seq<Group>, y: seq<Group>, out: bool, minPorts: nat)
    ensures Flat(x + y, out, minPorts, 0) == Flat(x, out, minPorts, 0) + Flat(y, out, minPorts, 0)
    decreases |x|
  {
    hide Run, Size;
    if x == [] {
      assert x + y == y;
    } else {
      assert (x + y)[1..] == x[1..] + y;
      FlatAppend(x[1..], y, out, minPorts);
    }
  }

  /** Only the expandable list is padded. */
  lemma {:induction false} FlatExpands(x: seq<Group>, g: Group, y: seq<Group>, out: bool, minPorts: nat, extra: nat)
    requires forall i :: 0 <= i < |x| ==> !Expandable(Ports(x[i], out), minPorts)
    requires Expandable(Ports(g, out), minPorts)
    ensures Flat(x + [g] + y, out, minPorts, extra)
        == Flat(x, out, minPorts, 0) + Flat([g], out, minPorts, extra) + Flat(y, out, minPorts, 0)
    decreases |x|
  {
    hide Run, Size, Expandable;
    var all := x + [g] + y;
    if x == [] {
      assert all[0] == g && all[1..] == y && [g][1..] == [];
    } else {
      assert all[0] == x[0] && all[1..] == x[1..] + [g] + y;
      FlatExpands(x[1..], g, y, out, minPorts, extra);
    }
  }

  /** The ports of a side are counted element by element: those listed, without a final -1, and one
      for an element without a list. */
  lemma PortsCounted(x: seq<Group>, g: Group)
    requires PortsOk(g.outputs) && PortsOk(g.inputs)
    ensures MinPorts([], true) == MinPorts([], false) == OpenCount([], true) == OpenCount([], false) == 0
    ensures MinPorts(x + [g], true) == MinPorts(x, true) + if g.outputs == []
        then 1 else |g.outputs| - OpenEnd(g.outputs)
    ensures MinPorts(x + [g], false) == MinPorts(x, false) + if g.inputs == []
        then 1 else |g.inputs| - OpenEnd(g.inputs)
    ensures OpenCount(x + [g], true) == OpenCount(x, true) + OpenEnd(g.outputs)
    ensures OpenCount(x + [g], false) == OpenCount(x, false) + OpenEnd(g.inputs)
  {
    assert (x + [g])[..|x|] == x;
  }

  function OpenEnd(list: seq<int>): nat {
    if list != [] && list[|list| - 1] == -1 then 1 else 0
  }

  /** Without expandable lists: one of the sides has one port, or `=>` joins as many ports as there are
      on the other side; and a lone element without a list takes as many as the other side has. */
  lemma AcceptedCounts(x: seq<Group>, y: seq<Group>)
    requires x != [] && y != [] && OpenCount(x, true) == 0 && OpenCount(y, false) == 0
    ensures Consistent(x, y, false) <==> MinPorts(x, true) == 1 || MinPorts(y, false) == 1
    ensures Consistent(x, y, true) <==>
      MinPorts(x, true) == 1 || MinPorts(y, false) == 1 || MinPorts(x, true) == MinPorts(y, false)
  {
    SideLength(x, true, y, true);
    SideLength(y, false, x, true);
    MinPortsPositive(x, true);
    MinPortsPositive(y, false);
    hide MinPorts, OpenCount, SidePorts;
  }

  // ----- Statements that join two elements

  ghost predicate ListsOk(g: Group, h: Group) {
    PortsOk(g.outputs) && PortsOk(h.inputs)
  }

  lemma OneSizes(g: Group, out: bool)
    ensures MinPorts([g], out) == Size(Ports(g, out)) && OpenCount([g], out) == if Open(Ports(g, out)) then 1 else 0
  {
    assert [g][..0] == [];
  }

  /** When `g -> h` and `g => h` are accepted, by how many ports are listed on each side. */
  lemma AcceptedLists(g: Group, h: Group)
    requires ListsOk(g, h)
    ensures Closed(g.outputs) && Closed(h.inputs) ==>
        && (Consistent([g], [h], true) <==> |g.outputs| == |h.inputs| || |g.outputs| == 1 || |h.inputs| == 1)
        && (Consistent([g], [h], false) <==> |g.outputs| == 1 || |h.inputs| == 1)
    ensures |g.outputs| > 1 && g.outputs[|g.outputs| - 1] == -1 && Closed(h.inputs) ==>
        && (Consistent([g], [h], true) <==> |g.outputs| - 1 <= |h.inputs| || |h.inputs| == 1)
        && (Consistent([g], [h], false) <==> |h.inputs| == 1)
    ensures Closed(g.outputs) && |h.inputs| > 1 && h.inputs[|h.inputs| - 1] == -1 ==>
        && (Consistent([g], [h], true) <==> |h.inputs| - 1 <= |g.outputs| || |g.outputs| == 1)
        && (Consistent([g], [h], false) <==> |g.outputs| == 1)
    ensures |g.outputs| > 1 && g.outputs[|g.outputs| - 1] == -1 && |h.inputs| > 1 && h.inputs[|h.inputs| - 1] == -1 ==>
        !Consistent([g], [h], true) && !Consistent([g], [h], false)
    ensures g.outputs == [] && (h.inputs == [] || Closed(h.inputs)) ==>
        Consistent([g], [h], true) && Consistent([g], [h], false)
    ensures h.inputs == [] && (g.outputs == [] || Closed(g.outputs)) ==>
        Consistent([g], [h], true) && Consistent([g], [h], false)
  {
    OneSizes(g, true);
    OneSizes(h, false);
    SideLength([g], true, [h], true);
    SideLength([h], false, [g], true);
    SideLength([g], true, [h], false);
    SideLength([h], false, [g], false);
    hide MinPorts, OpenCount, SidePorts;
  }

  /** What two elements with listed ports are connected by: the ports in order, a single port with
      each of the other side. */
  lemma ListedPorts(g: Group, h: Group, doubleArrow: bool, conns: seq<(Ref, Ref)>)
    requires Closed(g.outputs) && Closed(h.inputs)
    requires Zipped(conns, SidePorts([g], true, [h], doubleArrow), SidePorts([h], false, [g], doubleArrow))
    ensures |conns| == if |g.outputs| >= |h.inputs| then |g.outputs| else |h.inputs|
    ensures forall i :: 0 <= i < |conns| && i < |g.outputs| ==>
        conns[i].0 == Ref(g.elem, g.outputs[i])
    ensures forall i :: 0 <= i < |conns| && i < |h.inputs| ==>
        conns[i].1 == Ref(h.elem, h.inputs[i])
    ensures |g.outputs| == 1 ==> forall i :: 0 <= i < |conns| ==> conns[i].0 == Ref(g.elem, g.outputs[0])
    ensures |h.inputs| == 1 ==> forall i :: 0 <= i < |conns| ==> conns[i].1 == Ref(h.elem, h.inputs[0])
  {
    OneSizes(g, true);
    OneSizes(h, false);
    FlatOne(g, true, MinPorts([g], true), 0);
    FlatOne(h, false, MinPorts([h], false), 0);
    hide MinPorts, OpenCount, Flat;
  }

  /** One port to one port. */
  lemma SinglePorts(a: nat, p: nat, b: nat, q: nat, before: seq<int>, after: seq<int>, doubleArrow: bool,
                    conns: seq<(Ref, Ref)>)
    requires var x, y := [Group(a, before, [p])], [Group(b, [q], after)];
             Zipped(conns, SidePorts(x, true, y, doubleArrow), SidePorts(y, false, x, doubleArrow))
    ensures conns == [(Ref(a, p), Ref(b, q))]
    ensures Consistent([Group(a, before, [p])], [Group(b, [q], after)], doubleArrow)
  {
    var g, h := Group(a, before, [p]), Group(b, [q], after);
    AcceptedLists(g, h);
    ListedPorts(g, h, doubleArrow, conns);
    hide Zipped, SidePorts, Consistent;
  }

  /** An expandable list of outputs with `=>`: the listed ports, then consecutive numbers, as many as
      there are inputs listed. */
  lemma ExpandedOutputs(g: Group, h: Group, conns: seq<(Ref, Ref)>)
    requires PortsOk(g.outputs) && |g.outputs| > 1 && g.outputs[|g.outputs| - 1] == -1 && Closed(h.inputs)
    requires |g.outputs| - 1 <= |h.inputs|
    requires Zipped(conns, SidePorts([g], true, [h], true), SidePorts([h], false, [g], true))
    ensures |conns| == |h.inputs|
    ensures forall i :: 0 <= i < |conns| ==> conns[i].1 == Ref(h.elem, h.inputs[i])
    ensures var n := |g.outputs| - 1; forall i :: 0 <= i < |conns| ==>
        conns[i].0 == Ref(g.elem, if i < n then g.outputs[i] else g.outputs[n - 1] + (i - (n - 1)))
  {
    OneSizes(g, true);
    OneSizes(h, false);
    FlatOne(g, true, MinPorts([g], true), |h.inputs| - (|g.outputs| - 1));
    FlatOne(h, false, MinPorts([h], false), 0);
    hide MinPorts, OpenCount, Flat;
  }

  lemma ExpandedInputs(g: Group, h: Group, conns: seq<(Ref, Ref)>)
    requires PortsOk(h.inputs) && |h.inputs| > 1 && h.inputs[|h.inputs| - 1] == -1 && Closed(g.outputs)
    requires |h.inputs| - 1 <= |g.outputs|
    requires Zipped(conns, SidePorts([g], true, [h], true), SidePorts([h], false, [g], true))
    ensures |conns| == |g.outputs|
    ensures forall i :: 0 <= i < |conns| ==> conns[i].0 == Ref(g.elem, g.outputs[i])
    ensures var n := |h.inputs| - 1; forall i :: 0 <= i < |conns| ==>
        conns[i].1 == Ref(h.elem, if i < n then h.inputs[i] else h.inputs[n - 1] + (i - (n - 1)))
  {
    OneSizes(g, true);
    OneSizes(h, false);
    FlatOne(h, false, MinPorts([h], false), |g.outputs| - (|h.inputs| - 1));
    FlatOne(g, true, MinPorts([g], true), 0);
    hide MinPorts, OpenCount, Flat;
  }

  /** No list at all: port 0 again and again with `->`, ports 0, 1, 2 and so on with `=>`. */
  lemma MissingOutputs(g: Group, h: Group, doubleArrow: bool, conns: seq<(Ref, Ref)>)
    requires g.outputs == [] && Closed(h.inputs)
    requires Zipped(conns, SidePorts([g], true, [h], doubleArrow), SidePorts([h], false, [g], doubleArrow))
    ensures |conns| == |h.inputs|
    ensures forall i :: 0 <= i < |conns| ==>
        conns[i] == (Ref(g.elem, if doubleArrow then i else 0), Ref(h.elem, h.inputs[i]))
  {
    OneSizes(g, true);
    OneSizes(h, false);
    FlatOne(g, true, MinPorts([g], true), if doubleArrow && |h.inputs| > 1 then |h.inputs| - 1 else 0);
    FlatOne(h, false, MinPorts([h], false), 0);
    hide MinPorts, OpenCount, Flat;
  }

  lemma MissingInputs(g: Group, h: Group, doubleArrow: bool, conns: seq<(Ref, Ref)>)
    requires h.inputs == [] && Closed(g.outputs)
    requires Zipped(conns, SidePorts([g], true, [h], doubleArrow), SidePorts([h], false, [g], doubleArrow))
    ensures |conns| == |g.outputs|
    ensures forall i :: 0 <= i < |conns| ==>
        conns[i] == (Ref(g.elem, g.outputs[i]), Ref(h.elem, if doubleArrow then i else 0))
  {
    OneSizes(g, true);
    OneSizes(h, false);
    FlatOne(h, false, MinPorts([h], false), if doubleArrow && |g.outputs| > 1 then |g.outputs| - 1 else 0);
    FlatOne(g, true, MinPorts([g], true), 0);
    hide MinPorts, OpenCount, Flat;
  }
}
