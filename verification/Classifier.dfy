/** The packet state machine of the modified `Classifier`: which of two links each packet takes.
    A packet is its decoded fields, the clock a parameter, and traffic is counted in bits.  The
    element is specified by its history: each of its fields is what the packets pushed so far
    say it is. */
module Classifier {
  import opened IP4Text

  datatype Protocol = Tcp | Udp | Other

  /** `dnsBytes`: the bytes that mark a DNS query are there; `toolHello`: the payload is a TLS
      hello that names a measurement tool. */
  datatype Packet = Packet(source: Address4, destination: Address4, length: nat, protocol: Protocol,
                           dnsBytes: bool, toolHello: bool)

  /** One push: what came, which output it took, and what else happened. */
  datatype Event = Event(time: int, packet: Packet, out: nat, low: bool, reset: bool, flags: bool)

  const IperfServer: Address4 := [45, 147, 210, 189]
  const Megabit := 1_000_000
  const BurstThreshold := 10
  const ObservationThreshold := 30

  ghost predicate Bytes(a: Address4) {
    forall i :: 0 <= i < 4 ==> a[i] < 256
  }

  ghost predicate WellFormed(p: Packet) {
    Bytes(p.source) && Bytes(p.destination)
  }

  predicate Iperf(p: Packet) {
    p.source == IperfServer || p.destination == IperfServer
  }

  predicate Measurable(p: Packet) {
    p.protocol != Other && !p.dnsBytes
  }

  predicate Between(p: Packet, a: Address4, b: Address4) {
    (p.source == a && p.destination == b) || (p.source == b && p.destination == a)
  }

  // ----- What a history says

  /** The events since the last reset, the resetting packet included. */
  function SinceReset(h: seq<Event>): seq<Event> {
    if h == [] then []
    else if h[|h| - 1].reset then [h[|h| - 1]]
    else SinceReset(h[..|h| - 1]) + [h[|h| - 1]]
  }

  function CountOut(h: seq<Event>, out: nat): nat {
    if h == [] then 0 else CountOut(h[..|h| - 1], out) + if h[|h| - 1].out == out then 1 else 0
  }

  /** Bits seen in second `t`. */
  function BitsAt(h: seq<Event>, t: int): nat {
    if h == [] then 0 else BitsAt(h[..|h| - 1], t) + if h[|h| - 1].time == t then 8 * h[|h| - 1].packet.length else 0
  }

  ghost predicate IsLargest(h: seq<Event>, max: nat) {
    (forall t :: BitsAt(h, t) <= max) && (max == 0 || exists t :: BitsAt(h, t) == max)
  }

  ghost predicate FlaggedIn(s: seq<Event>, a: Address4, b: Address4) {
    exists i :: 0 <= i < |s| && s[i].flags && Between(s[i].packet, a, b)
  }

  /** When the observation period began: the first flagging event that is not the iperf rule. */
  function StartOf(s: seq<Event>): int {
    if s == [] then 0
    else if StartOf(s[..|s| - 1]) != 0 then StartOf(s[..|s| - 1])
    else if s[|s| - 1].flags && !Iperf(s[|s| - 1].packet) then s[|s| - 1].time else 0
  }

  /** The traffic profile: per second 0 for less, 1 for the same, 2 for more. */
  datatype Profile = Profile(first: bool, seen: map<int, int>)

  /** A difference in bits as whole megabits, truncated towards zero. */
  function Truncated(bits: int): int {
    if bits >= 0 then bits / Megabit else -(-bits / Megabit)
  }

  function Abs(x: int): nat {
    if x < 0 then -x else x
  }

  function Classify(difference: int): int {
    if Abs(difference) > BurstThreshold && difference > 0 then 2
    else if Abs(difference) < BurstThreshold && difference < 0 then 0
    else 1
  }

  /** The profile once a packet has been counted, before anything is reset. */
  function ProfileNow(h: seq<Event>, time: int, p: Packet): Profile
    decreases |h|, 1
  {
    var before, bits := ProfileAfter(h), BitsAt(h, time) + 8 * p.length;
    if bits == 0 then before else
      var c := Classify(Truncated(bits - BitsAt(h, time - 1)));
      if c == 2 && before.first then Profile(false, map[time := c])
      else before.(seen := before.seen[time := c])
  }

  function ProfileAfter(h: seq<Event>): Profile
    decreases |h|, 0
  {
    if h == [] || h[|h| - 1].reset then Profile(true, map[])
    else ProfileNow(h[..|h| - 1], h[|h| - 1].time, h[|h| - 1].packet)
  }

  /** Packets in slow seconds since the count last started again. */
  function LowNow(h: seq<Event>, time: int, p: Packet): nat
    decreases |h|, 1
  {
    LowAfter(h) + if BitsAt(h, time) + 8 * p.length < Megabit then 1 else 0
  }

  function LowAfter(h: seq<Event>): nat
    decreases |h|, 0
  {
    if h == [] then 0 else
      var e := h[|h| - 1];
      if e.reset || (!Iperf(e.packet) && Measurable(e.packet) && e.low) then 0
      else LowNow(h[..|h| - 1], e.time, e.packet)
  }

  predicate Expired(h: seq<Event>, time: int, p: Packet) {
    var start := StartOf(SinceReset(h));
    (start > 0 && time - start > ObservationThreshold) || |ProfileNow(h, time, p).seen| > ObservationThreshold
  }

  ghost predicate Already(h: seq<Event>, e: Event) {
    !e.reset && FlaggedIn(SinceReset(h), e.packet.source, e.packet.destination)
  }

  /** Event `e` is what a push after history `h` must do. */
  ghost predicate Judged(h: seq<Event>, e: Event, definitions: set<string>) {
    var p := e.packet;
    && e.time > 0 && WellFormed(p)
    && (e.low <==> LowNow(h, e.time, p) > 115)
    && (e.reset <==> !Iperf(p) && Measurable(p) && !e.low && Expired(h, e.time, p))
    && (e.flags <==> Iperf(p) || (Measurable(p) && !e.low && !Already(h, e)
                       && ((p.protocol == Tcp && p.toolHello)
                           || ProfileText(ProfileNow(h, e.time, p).seen) in definitions)))
    && e.out == if Iperf(p) || (Measurable(p) && !e.low && (Already(h, e) || e.flags)) then 1 else 0
  }

  ghost predicate Legal(h: seq<Event>, definitions: set<string>) {
    forall j :: 0 <= j < |h| ==> Judged(h[..j], h[j], definitions)
  }

  // ----- The profile as text, in order of time

  predicate IsLeast(k: int, s: set<int>) {
    k in s && forall j :: j in s ==> k <= j
  }

  lemma Member<T>(s: set<T>) returns (x: T)
    requires s != {}
    ensures x in s
  {
    x :| x in s;
  }

  lemma {:induction false} HasLeast(s: set<int>)
    requires |s| > 0
    ensures exists k :: IsLeast(k, s)
    decreases |s|
  {
    var x := Member(s);
    var rest := s - {x};
    assert forall j :: j in s ==> j == x || j in rest;
    if |rest| == 0 {
      assert rest == {};
      assert IsLeast(x, s);
    } else {
      HasLeast(rest);
      var k :| IsLeast(k, rest);
      assert IsLeast(if x <= k then x else k, s);
    }
  }

  function Least(s: set<int>): (k: int)
    requires |s| > 0
    ensures IsLeast(k, s)
  {
    HasLeast(s);
    var k :| k in s && IsLeast(k, s);
    k
  }

  function ProfileText(seen: map<int, int>): string {
    if seen == map[] then "" else
      var k := Least(seen.Keys);
      Decimal(Abs(seen[k])) + ProfileText(seen - {k})
  }

  method CurrentBehavior(seen: map<int, int>) returns (text: string)
    ensures text == ProfileText(seen)
  {
    text := "";
    var left := seen;
    while left != map[]
      invariant text + ProfileText(left) == ProfileText(seen)
      decreases |left|
    {
      var k := Least(left.Keys);
      text := text + Decimal(Abs(left[k]));
      left := left - {k};
    }
  }

  /** One second is one digit. */
  lemma ProfileOne(t: int, v: nat)
    requires v < 10
    ensures ProfileText(map[t := v]) == ["0123456789"[v]]
  {
    var seen := map[t := v];
    assert seen.Keys == {t};
    var k := Least(seen.Keys);
    assert seen - {k} == map[];
    DecimalIs(0, v);
  }

  lemma LeastIs(s: set<int>, k: int)
    requires |s| > 0 && IsLeast(k, s)
    ensures Least(s) == k
  {
  }

  ghost predicate AllBefore(early: map<int, int>, late: map<int, int>) {
    forall a, b :: a in early && b in late ==> a < b
  }

  /** Earlier seconds come first. */
  lemma {:induction false} ProfileInOrder(early: map<int, int>, late: map<int, int>)
    requires AllBefore(early, late)
    ensures ProfileText(early + late) == ProfileText(early) + ProfileText(late)
    decreases |early|
  {
    hide ProfileText, Decimal, AllBefore, IsLeast;
    if early == map[] {
      ProfileNone(late);
    } else {
      var k := LeastHere(early);
      LeastOfBoth(early, late, k);
      LaterStill(early, late, k);
      ProfileInOrder(early - {k}, late);
      ProfileFirst(early, k);
      ProfileFirst(early + late, k);
      Regroup(Decimal(Abs(early[k])), ProfileText(early - {k}), ProfileText(late));
    }
  }

  lemma Regroup(a: string, b: string, c: string)
    ensures a + (b + c) == a + b + c
  {
  }

  lemma ProfileNone(late: map<int, int>)
    ensures map[] + late == late && ProfileText(map[]) == "" && "" + ProfileText(late) == ProfileText(late)
  {
  }

  lemma LeastHere(early: map<int, int>) returns (k: int)
    requires early != map[]
    ensures k in early && |early.Keys| > 0 && Least(early.Keys) == k && |early - {k}| < |early|
  {
    k := Least(early.Keys);
    assert early.Keys == (early - {k}).Keys + {k};
  }

  lemma LaterStill(early: map<int, int>, late: map<int, int>, k: int)
    requires AllBefore(early, late)
    ensures AllBefore(early - {k}, late)
  {
  }

  lemma LeastOfBoth(early: map<int, int>, late: map<int, int>, k: int)
    requires AllBefore(early, late) && k in early && |early.Keys| > 0 && Least(early.Keys) == k
    ensures k in early + late && |(early + late).Keys| > 0 && Least((early + late).Keys) == k
    ensures (early + late)[k] == early[k] && (early + late) - {k} == (early - {k}) + late
  {
    var all := early + late;
    assert k in all.Keys;
    forall j | j in all.Keys ensures k <= j {
      if j in early { assert j in early.Keys; }
    }
    LeastIs(all.Keys, k);
    hide IsLeast;
    WithoutLeast(early, late, k);
  }

  lemma WithoutLeast(early: map<int, int>, late: map<int, int>, k: int)
    requires k in early && k !in late
    ensures (early + late)[k] == early[k] && (early + late) - {k} == (early - {k}) + late
  {
  }

  lemma ProfileFirst(seen: map<int, int>, k: int)
    requires k in seen && |seen.Keys| > 0 && Least(seen.Keys) == k
    ensures ProfileText(seen) == Decimal(Abs(seen[k])) + ProfileText(seen - {k})
  {
  }

  // ----- Address pairs as strings

  /** `get_ip_string`: numbers with dots between them. */
  method GetIpString(chars: Address4) returns (text: string)
    ensures text == Text4(chars)
  {
    hide Decimal;
    text := "";
    for i := 0 to 4
      invariant i == 0 ==> text == ""
      invariant i > 0 ==> text == Decimal(chars[0]) + Dotted(chars[1..i]) + if i < 4 then "." else ""
    {
      if i > 0 {
        DottedSnoc(chars[1..i], chars[i]);
        assert chars[1..i + 1] == chars[1..i] + [chars[i]];
      }
      text := text + Decimal(chars[i]);
      if i < 4 - 1 {
        text := text + ".";
      }
    }
    assert chars[1..4] == chars[1..];
  }

  lemma {:induction false} DottedSnoc(b: seq<nat>, x: nat)
    ensures Dotted(b + [x]) == Dotted(b) + "." + Decimal(x)
  {
    hide Decimal;
    if b == [] {
      assert b + [x] == [x] && [x][1..] == [];
    } else {
      assert (b + [x])[1..] == b[1..] + [x];
      DottedSnoc(b[1..], x);
    }
  }

  function Key(a: Address4, b: Address4): string {
    Text4(a) + ":" + Text4(b)
  }

  function ColonAt(s: string): nat {
    if s == "" || s[0] == ':' then 0 else 1 + ColonAt(s[1..])
  }

  lemma {:induction false} FirstColon(u: string, v: string)
    requires ':' !in u
    ensures ColonAt(u + ":" + v) == |u|
  {
    if u != "" {
      assert (u + ":" + v)[1..] == u[1..] + ":" + v;
      FirstColon(u[1..], v);
    }
  }

  lemma {:induction false} NoColonDotted(b: seq<nat>)
    ensures ':' !in Dotted(b)
  {
    hide Decimal;
    if b != [] {
      NoColonDotted(b[1..]);
    }
  }

  lemma NoColonText(a: Address4)
    ensures ':' !in Text4(a)
  {
    hide Decimal, Dotted;
    NoColonDotted(a[1..]);
  }

  lemma TextInjective(a: Address4, b: Address4)
    requires Bytes(a) && Bytes(b) && Text4(a) == Text4(b)
    ensures a == b
  {
    RoundTrip4(a, _ => None);
    RoundTrip4(b, _ => None);
  }

  /** Different pairs of addresses have different keys. */
  lemma KeyInjective(a: Address4, b: Address4, c: Address4, d: Address4)
    requires Bytes(a) && Bytes(b) && Bytes(c) && Bytes(d)
    requires Key(a, b) == Key(c, d)
    ensures a == c && b == d
  {
    hide Text4;
    NoColonText(a);
    NoColonText(c);
    FirstColon(Text4(a), Text4(b));
    FirstColon(Text4(c), Text4(d));
    SplitEqual(Text4(a), Text4(b), Text4(c), Text4(d));
    TextInjective(a, c);
    TextInjective(b, d);
  }

  lemma SplitEqual(u: string, v: string, x: string, y: string)
    requires |u| == |x| && u + ":" + v == x + ":" + y
    ensures u == x && v == y
  {
    assert (u + ":" + v)[..|u|] == u && (x + ":" + y)[..|x|] == x;
    assert (u + ":" + v)[|u| + 1..] == v && (x + ":" + y)[|x| + 1..] == y;
  }

  lemma IperfText(a: Address4)
    requires Bytes(a)
    ensures Text4(a) == "45.147.210.189" <==> a == IperfServer
  {
    IperfIs();
    if Text4(a) == "45.147.210.189" {
      TextInjective(a, IperfServer);
    }
  }

  lemma IperfNumbers()
    ensures Decimal(45) == "45" && Decimal(147) == "147" && Decimal(210) == "210" && Decimal(189) == "189"
  {
    TwoDigits(4, 5);
    TwoDigits(1, 4);
    TwoDigits(2, 1);
    TwoDigits(1, 8);
    assert Decimal(147) == Decimal(14) + "7";
    assert Decimal(210) == Decimal(21) + "0";
    assert Decimal(189) == Decimal(18) + "9";
  }

  lemma TwoDigits(a: nat, b: nat)
    requires 0 < a < 10 && b < 10
    ensures Decimal(10 * a + b) == [DecimalChar(a), DecimalChar(b)]
  {
    assert (10 * a + b) / 10 == a && (10 * a + b) % 10 == b;
  }

  lemma IperfIs()
    ensures Text4(IperfServer) == "45.147.210.189"
  {
    IperfNumbers();
    assert Dotted([]) == "";
    hide Decimal, Dotted;
    DottedStep(189, []);
    DottedStep(210, [189]);
    DottedStep(147, [210, 189]);
    assert [189] + [] == [189] && [210] + [189] == [210, 189] && [147] + [210, 189] == [147, 210, 189];
    assert IperfServer[1..] == [147, 210, 189];
  }

  // ----- One more event

  lemma Extend(h: seq<Event>, e: Event)
    ensures SinceReset(h + [e]) == if e.reset then [e] else SinceReset(h) + [e]
    ensures forall t :: BitsAt(h + [e], t) == BitsAt(h, t) + if e.time == t then 8 * e.packet.length else 0
    ensures ProfileAfter(h + [e]) == if e.reset then Profile(true, map[]) else ProfileNow(h, e.time, e.packet)
    ensures LowAfter(h + [e]) == if e.reset || (!Iperf(e.packet) && Measurable(e.packet) && e.low)
        then 0 else LowNow(h, e.time, e.packet)
  {
    assert (h + [e])[..|h|] == h;
  }

  lemma ExtendSince(s: seq<Event>, e: Event)
    ensures forall out :: CountOut(s + [e], out) == CountOut(s, out) + if e.out == out then 1 else 0
    ensures StartOf(s + [e]) ==
      if StartOf(s) != 0 then StartOf(s) else if e.flags && !Iperf(e.packet) then e.time else 0
  {
    assert (s + [e])[..|s|] == s;
  }

  lemma ExtendFlagged(s: seq<Event>, e: Event, a: Address4, b: Address4)
    ensures FlaggedIn(s + [e], a, b) <==> FlaggedIn(s, a, b) || (e.flags && Between(e.packet, a, b))
  {
    var t := s + [e];
    if FlaggedIn(s, a, b) {
      var i :| 0 <= i < |s| && s[i].flags && Between(s[i].packet, a, b);
      assert t[i] == s[i];
    }
    if e.flags && Between(e.packet, a, b) {
      assert t[|s|] == e;
    }
  }

  lemma ExtendLegal(h: seq<Event>, e: Event, definitions: set<string>)
    requires Legal(h, definitions) && Judged(h, e, definitions)
    ensures Legal(h + [e], definitions)
  {
    hide Judged;
    var t := h + [e];
    forall j | 0 <= j < |t| ensures Judged(t[..j], t[j], definitions) {
      if j < |h| {
        assert t[..j] == h[..j] && t[j] == h[j];
      } else {
        assert t[..j] == h;
      }
    }
  }

  lemma ExtendLargest(h: seq<Event>, e: Event, max: nat)
    requires IsLargest(h, max)
    ensures var bits := BitsAt(h, e.time) + 8 * e.packet.length;
            IsLargest(h + [e], if bits > max then bits else max)
  {
    Extend(h, e);
    var bits, t := BitsAt(h, e.time) + 8 * e.packet.length, h + [e];
    assert BitsAt(t, e.time) == bits;
    if bits <= max && max != 0 {
      var u :| BitsAt(h, u) == max;
      assert BitsAt(t, u) == if u == e.time then bits else max;
      assert BitsAt(t, u) == max;
    }
  }

  // ----- Fields against history

  /** `operator[]` on a map: a missing entry reads as zero or false. */
  function Bits(m: map<int, nat>, t: int): nat {
    if t in m then m[t] else 0
  }

  predicate Flag(m: map<string, bool>, key: string) {
    key in m && m[key]
  }

  ghost predicate BurstsAre(m: map<int, nat>, h: seq<Event>) {
    forall t :: Bits(m, t) == BitsAt(h, t)
  }

  ghost predicate FlagIs(m: map<string, bool>, s: seq<Event>, a: Address4, b: Address4) {
    Bytes(a) && Bytes(b) ==> (Flag(m, Key(a, b)) <==> FlaggedIn(s, a, b))
  }

  /** A pair is flagged, in either order, exactly if a packet between the two was. */
  ghost predicate FlagsAre(m: map<string, bool>, s: seq<Event>) {
    forall a, b :: FlagIs(m, s, a, b)
  }

  lemma FlagsNone(m: map<string, bool>, s: seq<Event>, e: Event)
    requires FlagsAre(m, s) && !e.flags
    ensures FlagsAre(m, s + [e])
  {
    forall a, b ensures FlagIs(m, s + [e], a, b) {
      assert FlagIs(m, s, a, b);
      ExtendFlagged(s, e, a, b);
    }
  }

  /** Looking a key up may add it, as not flagged. */
  lemma FlagsTouched(m: map<string, bool>, s: seq<Event>, key: string)
    requires FlagsAre(m, s)
    ensures FlagsAre(m[key := Flag(m, key)], s)
  {
    hide Key;
    var n := m[key := Flag(m, key)];
    forall a, b ensures FlagIs(n, s, a, b) {
      assert FlagIs(m, s, a, b);
    }
  }

  lemma FlagsSet(m: map<string, bool>, s: seq<Event>, e: Event)
    requires FlagsAre(m, s) && e.flags && WellFormed(e.packet)
    ensures var p := e.packet;
            FlagsAre(m[Key(p.source, p.destination) := true][Key(p.destination, p.source) := true], s + [e])
  {
    hide Key;
    var p := e.packet;
    var k1, k2 := Key(p.source, p.destination), Key(p.destination, p.source);
    var now := m[k1 := true][k2 := true];
    forall a, b ensures FlagIs(now, s + [e], a, b) {
      assert FlagIs(m, s, a, b);
      ExtendFlagged(s, e, a, b);
      if Bytes(a) && Bytes(b) {
        if Key(a, b) == k1 {
          KeyInjective(a, b, p.source, p.destination);
        } else if Key(a, b) == k2 {
          KeyInjective(a, b, p.destination, p.source);
        } else {
          assert Flag(now, Key(a, b)) == Flag(m, Key(a, b));
        }
      }
    }
  }

  lemma FlagsPair(m: map<string, bool>, s: seq<Event>, p: Packet)
    requires FlagsAre(m, s) && WellFormed(p)
    ensures Flag(m, Key(p.source, p.destination)) <==> FlaggedIn(s, p.source, p.destination)
    ensures Flag(m, Key(p.destination, p.source)) <==> FlaggedIn(s, p.source, p.destination)
  {
    hide Key;
    assert FlagIs(m, s, p.source, p.destination) && FlagIs(m, s, p.destination, p.source);
    FlaggedEitherWay(s, p.source, p.destination);
  }

  lemma FlaggedEitherWay(s: seq<Event>, a: Address4, b: Address4)
    ensures FlaggedIn(s, a, b) <==> FlaggedIn(s, b, a)
  {
    if FlaggedIn(s, a, b) {
      var i :| 0 <= i < |s| && s[i].flags && Between(s[i].packet, a, b);
      assert Between(s[i].packet, b, a);
    }
    if FlaggedIn(s, b, a) {
      var i :| 0 <= i < |s| && s[i].flags && Between(s[i].packet, b, a);
      assert Between(s[i].packet, a, b);
    }
  }

  /** The bits of each second, a packet in second `time` included. */
  ghost predicate Counted(m: map<int, nat>, h: seq<Event>, time: int, p: Packet) {
    forall t :: Bits(m, t) == BitsAt(h, t) + if t == time then 8 * p.length else 0
  }

  lemma CountedBits(m: map<int, nat>, h: seq<Event>, time: int, p: Packet)
    requires Counted(m, h, time, p)
    ensures Bits(m, time) == BitsAt(h, time) + 8 * p.length && Bits(m, time - 1) == BitsAt(h, time - 1)
  {
    hide BitsAt;
  }

  lemma CountedTouch(m: map<int, nat>, h: seq<Event>, time: int, p: Packet, t: int)
    requires Counted(m, h, time, p)
    ensures Counted(m[t := Bits(m, t)], h, time, p)
  {
    hide BitsAt;
  }

  ghost predicate Largest(h: seq<Event>, time: int, p: Packet, max: nat) {
    exists before :: IsLargest(h, before) &&
      var bits := BitsAt(h, time) + 8 * p.length; max == if bits > before then bits else before
  }

  lemma TrafficRecorded(h: seq<Event>, e: Event, m: map<int, nat>, max: nat)
    requires Counted(m, h, e.time, e.packet) && Largest(h, e.time, e.packet, max)
    ensures BurstsAre(m, h + [e]) && IsLargest(h + [e], max)
  {
    hide BitsAt, IsLargest;
    Extend(h, e);
    var before :| IsLargest(h, before) &&
      var bits := BitsAt(h, e.time) + 8 * e.packet.length; max == if bits > before then bits else before;
    ExtendLargest(h, e, before);
  }

  lemma LargestNow(h: seq<Event>, time: int, p: Packet, before: nat)
    requires IsLargest(h, before)
    ensures var bits := BitsAt(h, time) + 8 * p.length; Largest(h, time, p, if bits > before then bits else before)
  {
  }

  lemma LowIs(h: seq<Event>, time: int, p: Packet)
    ensures LowNow(h, time, p) == LowAfter(h) + if BitsAt(h, time) + 8 * p.length < Megabit then 1 else 0
  {
  }

  lemma KeyIs(p: Packet)
    ensures Key(p.source, p.destination) == Text4(p.source) + ":" + Text4(p.destination)
    ensures Key(p.destination, p.source) == Text4(p.destination) + ":" + Text4(p.source)
  {
  }

  lemma IperfEither(p: Packet)
    requires WellFormed(p)
    ensures Iperf(p) <==> Text4(p.source) == "45.147.210.189" || Text4(p.destination) == "45.147.210.189"
  {
    hide Text4;
    IperfText(p.source);
    IperfText(p.destination);
  }

  lemma JudgedIperf(h: seq<Event>, e: Event, definitions: set<string>)
    requires e.time > 0 && WellFormed(e.packet) && Iperf(e.packet)
    requires (e.low <==> LowNow(h, e.time, e.packet) > 115) && !e.reset && e.flags && e.out == 1
    ensures Judged(h, e, definitions)
  {
  }

  lemma ExpiredIs(h: seq<Event>, time: int, p: Packet)
    ensures var start := StartOf(SinceReset(h));
            Expired(h, time, p) <==>
              || (start > 0 && time - start > ObservationThreshold)
              || |ProfileNow(h, time, p).seen| > ObservationThreshold
  {
  }

  lemma PeriodStart()
    ensures StartOf([]) == 0 && CountOut([], 0) == 0 && CountOut([], 1) == 0 && FlagsAre(map[], [])
  {
  }

  /** Which event a packet gives when neither the iperf rule nor the protocol check applies. */
  lemma JudgedAs(h: seq<Event>, time: int, p: Packet, reset: bool, s: seq<Event>, definitions: set<string>)
    requires time > 0 && WellFormed(p) && LowNow(h, time, p) <= 115 && !Iperf(p) && Measurable(p)
    requires reset == Expired(h, time, p) && s == if reset then [] else SinceReset(h)
    ensures var flagged := FlaggedIn(s, p.source, p.destination);
            var flags := !flagged && ((p.protocol == Tcp && p.toolHello)
                || ProfileText(ProfileNow(h, time, p).seen) in definitions);
            Judged(h, Event(time, p, if flagged || flags then 1 else 0, false, reset, flags), definitions)
  {
    hide Expired, LowNow, ProfileText, ProfileNow, Iperf, Measurable;
    if reset {
      assert !FlaggedIn([], p.source, p.destination);
    }
  }

  lemma JudgedThrottled(h: seq<Event>, e: Event, definitions: set<string>)
    requires e.time > 0 && WellFormed(e.packet) && !Iperf(e.packet)
    requires (e.low <==> LowNow(h, e.time, e.packet) > 115) && (!Measurable(e.packet) || e.low)
    requires !e.reset && !e.flags && e.out == 0
    ensures Judged(h, e, definitions)
  {
  }

  // ----- One push in terms of the fields

  datatype Fields = Fields(timeBurst: map<int, nat>, behavior: map<int, int>, foundFirstBurst: bool,
                           flaggedIps: map<string, bool>, lowBurstRate: nat, maxBits: nat, startBurst: int,
                           throttled: nat, unthrottled: nat)

  ghost predicate FieldsAre(f: Fields, h: seq<Event>) {
    && BurstsAre(f.timeBurst, h)
    && IsLargest(h, f.maxBits)
    && Profile(f.foundFirstBurst, f.behavior) == ProfileAfter(h)
    && f.lowBurstRate == LowAfter(h)
    && f.startBurst == StartOf(SinceReset(h))
    && f.throttled == CountOut(SinceReset(h), 0)
    && f.unthrottled == CountOut(SinceReset(h), 1)
    && FlagsAre(f.flaggedIps, SinceReset(h))
  }

  /** Bits of the packet's second, the packet included. */
  ghost function NowBits(f: Fields, time: int, p: Packet): nat {
    Bits(f.timeBurst, time) + 8 * p.length
  }

  /** What the second is entered as: 2 for eleven megabits more than the second before, 0 for less by
      at least one megabit and less than ten, and otherwise 1. */
  ghost predicate EntryIs(now: int, before: int, entry: int) {
    && entry in {0, 1, 2}
    && (entry == 2 <==> now - before >= 11_000_000)
    && (entry == 0 <==> 1_000_000 <= before - now < 10_000_000)
  }

  /** The profile with the packet's second entered; the first burst starts it anew. */
  ghost predicate SeenIs(f: Fields, time: int, p: Packet, first: bool, seen: map<int, int>) {
    var now := NowBits(f, time, p);
    if now == 0 then first == f.foundFirstBurst && seen == f.behavior
    else
      && time in seen && EntryIs(now, Bits(f.timeBurst, time - 1), seen[time])
      && (if seen[time] == 2 && f.foundFirstBurst then !first && seen == map[time := 2]
          else first == f.foundFirstBurst && seen == f.behavior[time := seen[time]])
  }

  ghost function Slow(f: Fields, time: int, p: Packet): nat {
    f.lowBurstRate + if NowBits(f, time, p) < 1_000_000 then 1 else 0
  }

  ghost predicate ToIperf(p: Packet) {
    p.source == [45, 147, 210, 189] || p.destination == [45, 147, 210, 189]
  }

  /** The packet is looked at: not an iperf packet, TCP or UDP but not DNS, and not too many slow ones. */
  ghost predicate Considered(f: Fields, time: int, p: Packet) {
    !ToIperf(p) && p.protocol in {Tcp, Udp} && !p.dnsBytes && Slow(f, time, p) <= 115
  }

  ghost predicate Over(f: Fields, time: int, p: Packet, seen: map<int, int>) {
    Considered(f, time, p) && ((f.startBurst > 0 && time - f.startBurst > 30) || |seen| > 30)
  }

  /** The pair was flagged before, in either order, and not in a period that is over. */
  ghost predicate Known(f: Fields, p: Packet, over: bool) {
    !over && (Flag(f.flaggedIps, Text4(p.source) + ":" + Text4(p.destination))
              || Flag(f.flaggedIps, Text4(p.destination) + ":" + Text4(p.source)))
  }

  ghost predicate Marks(f: Fields, time: int, p: Packet, seen: map<int, int>, over: bool, definitions: set<string>) {
    || ToIperf(p)
    || (Considered(f, time, p) && !Known(f, p, over)
        && ((p.protocol == Tcp && p.toolHello) || ProfileText(seen) in definitions))
  }

  ghost predicate PairFlagged(f: Fields, f': Fields, p: Packet, over: bool, marks: bool, a: Address4, b: Address4) {
    Bytes(a) && Bytes(b) ==>
      (Flag(f'.flaggedIps, Text4(a) + ":" + Text4(b)) <==>
        || (!over && Flag(f.flaggedIps, Text4(a) + ":" + Text4(b)))
        || (marks && ((a == p.source && b == p.destination) || (a == p.destination && b == p.source))))
  }

  /** The fields and the output after a push, given the profile with the packet's second entered. */
  ghost predicate TurnWith(f: Fields, f': Fields, time: int, p: Packet, out: nat, definitions: set<string>,
                           first: bool, seen: map<int, int>) {
    var over := Over(f, time, p, seen);
    var marks := Marks(f, time, p, seen, over, definitions);
    && (forall t :: Bits(f'.timeBurst, t) == Bits(f.timeBurst, t) + if t == time then 8 * p.length else 0)
    && f'.maxBits == (if NowBits(f, time, p) > f.maxBits then NowBits(f, time, p) else f.maxBits)
    && f'.behavior == (if over then map[] else seen) && f'.foundFirstBurst == (over || first)
    && f'.lowBurstRate == (if over || (!ToIperf(p) && p.protocol in {Tcp, Udp} && !p.dnsBytes && Slow(f, time, p) > 115)
                           then 0 else Slow(f, time, p))
    && out == (if marks || (Considered(f, time, p) && Known(f, p, over)) then 1 else 0)
    && f'.startBurst == (var start := if over then 0 else f.startBurst;
                         if start == 0 && marks && !ToIperf(p) then time else start)
    && f'.throttled == (if over then 0 else f.throttled) + (if out == 0 then 1 else 0)
    && f'.unthrottled == (if over then 0 else f.unthrottled) + (if out == 1 then 1 else 0)
    && (forall a, b :: PairFlagged(f, f', p, over, marks, a, b))
  }

  ghost predicate Turn(f: Fields, f': Fields, time: int, p: Packet, out: nat, definitions: set<string>) {
    exists first, seen :: SeenIs(f, time, p, first, seen) && TurnWith(f, f', time, p, out, definitions, first, seen)
  }

  lemma ClassifyIs(now: int, before: int)
    ensures EntryIs(now, before, Classify(Truncated(now - before)))
  {
    TruncatedIs(now - before);
    hide Truncated;
  }

  lemma TruncatedIs(bits: int)
    ensures Truncated(bits) > 10 <==> bits >= 11_000_000
    ensures Truncated(bits) < 0 <==> bits <= -1_000_000
    ensures Truncated(bits) > -10 <==> bits > -10_000_000
  {
  }

  lemma ProfileIs(f: Fields, h: seq<Event>, time: int, p: Packet)
    requires FieldsAre(f, h)
    ensures var now := ProfileNow(h, time, p); SeenIs(f, time, p, now.first, now.seen)
    ensures NowBits(f, time, p) == BitsAt(h, time) + 8 * p.length && Slow(f, time, p) == LowNow(h, time, p)
  {
    hide BitsAt, ProfileAfter, LowAfter, IsLargest, FlagsAre, StartOf, SinceReset, CountOut, Classify, Truncated;
    assert Bits(f.timeBurst, time) == BitsAt(h, time) && Bits(f.timeBurst, time - 1) == BitsAt(h, time - 1);
    ClassifyIs(BitsAt(h, time) + 8 * p.length, BitsAt(h, time - 1));
  }

  lemma LastJudged(h: seq<Event>, definitions: set<string>)
    requires Legal(h, definitions) && h != []
    ensures Judged(h[..|h| - 1], h[|h| - 1], definitions)
  {
    hide Judged;
  }

  /** The decisions of an event, in terms of the fields before it. */
  lemma DecisionsAre(h: seq<Event>, e: Event, definitions: set<string>, f: Fields)
    requires FieldsAre(f, h) && Judged(h, e, definitions)
    ensures var p, seen := e.packet, ProfileNow(h, e.time, e.packet).seen; var over := Over(f, e.time, p, seen);
            && e.reset == over && e.flags == Marks(f, e.time, p, seen, over, definitions)
            && (e.low <==> Slow(f, e.time, p) > 115) && (Iperf(p) <==> ToIperf(p))
            && e.out == if e.flags || (Considered(f, e.time, p) && Known(f, p, over)) then 1 else 0
  {
    hide BitsAt, ProfileAfter, LowAfter, IsLargest, ProfileNow, LowNow, StartOf, SinceReset, CountOut, BurstsAre,
        FlagsAre, FlaggedIn, ProfileText, Text4, NowBits, Slow, SeenIs;
    ProfileIs(f, h, e.time, e.packet);
    KnownIs(f, h, e);
  }

  lemma KnownIs(f: Fields, h: seq<Event>, e: Event)
    requires FieldsAre(f, h) && WellFormed(e.packet)
    ensures Known(f, e.packet, e.reset) <==> Already(h, e)
  {
    hide BitsAt, ProfileAfter, LowAfter, IsLargest, ProfileNow, LowNow, StartOf, SinceReset, CountOut, BurstsAre,
        FlagsAre, FlaggedIn, Flag, Text4;
    FlagsPair(f.flaggedIps, SinceReset(h), e.packet);
    KeyIs(e.packet);
  }

  lemma TrafficTurn(f: Fields, f': Fields, h: seq<Event>, e: Event)
    requires BurstsAre(f.timeBurst, h) && BurstsAre(f'.timeBurst, h + [e])
    requires IsLargest(h, f.maxBits) && IsLargest(h + [e], f'.maxBits)
    ensures forall t :: Bits(f'.timeBurst, t) == Bits(f.timeBurst, t) + if t == e.time then 8 * e.packet.length else 0
    ensures var now := NowBits(f, e.time, e.packet); f'.maxBits == if now > f.maxBits then now else f.maxBits
  {
    hide BitsAt, IsLargest, Bits;
    Extend(h, e);
    ExtendLargest(h, e, f.maxBits);
    var now := NowBits(f, e.time, e.packet);
    LargestUnique(h + [e], f'.maxBits, if now > f.maxBits then now else f.maxBits);
  }

  lemma LargestUnique(h: seq<Event>, a: nat, b: nat)
    requires IsLargest(h, a) && IsLargest(h, b)
    ensures a == b
  {
    hide BitsAt;
  }

  lemma FlagsTurn(f: Fields, f': Fields, h: seq<Event>, e: Event)
    requires FlagsAre(f.flaggedIps, SinceReset(h)) && FlagsAre(f'.flaggedIps, SinceReset(h + [e]))
    ensures forall a, b :: PairFlagged(f, f', e.packet, e.reset, e.flags, a, b)
  {
    hide SinceReset, Flag, Text4, FlaggedIn;
    Extend(h, e);
    forall a, b ensures PairFlagged(f, f', e.packet, e.reset, e.flags, a, b) {
      assert FlagIs(f.flaggedIps, SinceReset(h), a, b) && FlagIs(f'.flaggedIps, SinceReset(h + [e]), a, b);
      var s := if e.reset then [] else SinceReset(h);
      assert SinceReset(h + [e]) == s + [e];
      ExtendFlagged(s, e, a, b);
      NoneFlagged(a, b);
    }
  }

  lemma NoneFlagged(a: Address4, b: Address4)
    ensures !FlaggedIn([], a, b)
  {
  }

  lemma TurnOf(h: seq<Event>, e: Event, definitions: set<string>, f: Fields, f': Fields)
    requires FieldsAre(f, h) && FieldsAre(f', h + [e]) && Judged(h, e, definitions)
    ensures Turn(f, f', e.time, e.packet, e.out, definitions)
  {
    hide BitsAt, ProfileAfter, LowAfter, IsLargest, ProfileNow, LowNow, StartOf, SinceReset, CountOut, BurstsAre,
        FlagsAre, ProfileText, NowBits, Slow, SeenIs, Judged, Considered, Known, Marks, Over, PairFlagged, Bits,
            ToIperf,
        Iperf;
    var now := ProfileNow(h, e.time, e.packet);
    ProfileIs(f, h, e.time, e.packet);
    DecisionsAre(h, e, definitions, f);
    TrafficTurn(f, f', h, e);
    FlagsTurn(f, f', h, e);
    Extend(h, e);
    PeriodTurn(h, e);
    assert TurnWith(f, f', e.time, e.packet, e.out, definitions, now.first, now.seen);
  }

  lemma PeriodTurn(h: seq<Event>, e: Event)
    ensures var s, now := SinceReset(h), SinceReset(h + [e]);
            && CountOut(now, 0) == (if e.reset then 0 else CountOut(s, 0)) + (if e.out == 0 then 1 else 0)
            && CountOut(now, 1) == (if e.reset then 0 else CountOut(s, 1)) + (if e.out == 1 then 1 else 0)
            && StartOf(now) == var start := if e.reset then 0 else StartOf(s);
                               if start == 0 && e.flags && !Iperf(e.packet) then e.time else start
  {
    hide SinceReset, CountOut, StartOf, Iperf;
    Extend(h, e);
    PeriodStart();
    var s := if e.reset then [] else SinceReset(h);
    assert SinceReset(h + [e]) == s + [e];
    ExtendSince(s, e);
  }

  /** What the second of the packet just pushed is entered as. */
  lemma TurnEntry(f: Fields, f': Fields, time: int, p: Packet, out: nat, definitions: set<string>)
    requires Turn(f, f', time, p, out, definitions)
    ensures var now, before := Bits(f'.timeBurst, time), Bits(f'.timeBurst, time - 1);
            now > 0 && f'.behavior != map[] ==>
              && time in f'.behavior && f'.behavior[time] in {0, 1, 2}
              && (f'.behavior[time] == 2 <==> now - before >= 11_000_000)
              && (f'.behavior[time] == 0 <==> 1_000_000 <= before - now < 10_000_000)
  {
    hide Bits, Considered, Known, Marks, Over, PairFlagged;
    var first, seen :| SeenIs(f, time, p, first, seen) && TurnWith(f, f', time, p, out, definitions, first, seen);
  }

  class Classifier {
    const definitions: set<string>
    var timeBurst: map<int, nat>
    var behavior: map<int, int>
    var foundFirstBurst: bool
    var flaggedIps: map<string, bool>
    var lowBurstRate: nat
    var maxBits: nat
    var startBurst: int
    var throttled: nat
    var unthrottled: nat
    ghost var history: seq<Event>

    ghost predicate Valid()
      reads this
    {
      && Legal(history, definitions)
      && BurstsAre(timeBurst, history)
      && IsLargest(history, maxBits)
      && Profile(foundFirstBurst, behavior) == ProfileAfter(history)
      && lowBurstRate == LowAfter(history)
      && startBurst == StartOf(SinceReset(history))
      && throttled == CountOut(SinceReset(history), 0)
      && unthrottled == CountOut(SinceReset(history), 1)
      && FlagsAre(flaggedIps, SinceReset(history))
    }

    constructor (definitions: set<string>)
      ensures Valid() && history == [] && this.definitions == definitions
    {
      this.definitions := definitions;
      timeBurst, behavior, foundFirstBurst, flaggedIps := map[], map[], true, map[];
      lowBurstRate, maxBits, startBurst, throttled, unthrottled := 0, 0, 0, 0, 0;
      history := [];
    }

    /** Adds a packet to its second. */
    method Count(time: int, p: Packet)
      requires BurstsAre(timeBurst, history)
      modifies this`timeBurst, this`maxBits
      ensures time in timeBurst && Counted(timeBurst, history, time, p)
      ensures maxBits == if timeBurst[time] > old(maxBits) then timeBurst[time] else old(maxBits)
    {
      hide BitsAt;
      timeBurst := timeBurst[time := Bits(timeBurst, time)];
      timeBurst := timeBurst[time := timeBurst[time] + 8 * p.length];
      if timeBurst[time] > maxBits {
        maxBits := timeBurst[time];
      }
    }

    /** Adds a second to the traffic profile. */
    method Track(time: int, p: Packet)
      requires time in timeBurst && Counted(timeBurst, history, time, p)
      requires Profile(foundFirstBurst, behavior) == ProfileAfter(history)
      modifies this`timeBurst, this`behavior, this`foundFirstBurst
      ensures time in timeBurst && Counted(timeBurst, history, time, p)
      ensures Profile(foundFirstBurst, behavior) == ProfileNow(history, time, p)
    {
      hide ProfileAfter, BitsAt, Truncated, Counted, Abs;
      CountedBits(timeBurst, history, time, p);
      if timeBurst[time] > 0 {
        CountedTouch(timeBurst, history, time, p, time - 1);
        timeBurst := timeBurst[time - 1 := Bits(timeBurst, time - 1)];
        var now: int, before: int := timeBurst[time], timeBurst[time - 1];
        var difference := Truncated(now - before);
        var increased := Abs(difference) > BurstThreshold && difference > 0;
        var decreased := Abs(difference) < BurstThreshold && difference < 0;
        var current := 1;
        if increased {
          current := 2;
          if foundFirstBurst {
            behavior := map[];
            foundFirstBurst := false;
          }
        } else if decreased {
          current := 0;
        }
        behavior := behavior[time := current];
      }
    }

    /** The counters add up to the packets since the last reset, and nothing else was recorded. */
    lemma CountersMatch()
      requires Valid()
      ensures throttled + unthrottled == |SinceReset(history)|
    {
      LegalSince(history, definitions);
      CountersAddUp(SinceReset(history));
    }

    /** What holds of the fields of the observation period when `s` are its events. */
    ghost predicate PeriodIs(s: seq<Event>)
      reads this
    {
      && startBurst == StartOf(s)
      && throttled == CountOut(s, 0)
      && unthrottled == CountOut(s, 1)
      && FlagsAre(flaggedIps, s)
    }

    /** What holds of the traffic fields while a packet is being judged. */
    ghost predicate TrafficIs(h: seq<Event>, time: int, p: Packet)
      reads this
    {
      Legal(h, definitions) && Counted(timeBurst, h, time, p) && Largest(h, time, p, maxBits)
    }

    ghost predicate LowFields(e: Event)
      reads this`foundFirstBurst, this`behavior, this`lowBurstRate, this`history
    {
      && Profile(foundFirstBurst, behavior)
          == (if e.reset then Profile(true, map[]) else ProfileNow(history, e.time, e.packet))
      && lowBurstRate == if e.reset || (!Iperf(e.packet) && Measurable(e.packet) && e.low) then 0
                         else LowNow(history, e.time, e.packet)
    }

    /** Everything but the period's fields is as it must be after `e`. */
    ghost predicate CanRecord(s: seq<Event>, e: Event)
      reads this
    {
      && TrafficIs(history, e.time, e.packet) && Judged(history, e, definitions)
      && s == (if e.reset then [] else SinceReset(history))
      && LowFields(e)
    }

    /** Sends a packet out and enters it in the history; the period's fields are those after
        `e`, with `s` the events before it. */
    ghost method Record(s: seq<Event>, e: Event)
      requires CanRecord(s, e) && PeriodIs(s + [e])
      modifies this`history
      ensures history == old(history) + [e]
      ensures Valid()
    {
      hide Legal, Judged, Counted, Largest, BurstsAre, IsLargest, FlagsAre, ProfileAfter, ProfileNow, LowAfter, LowNow,
          StartOf, SinceReset, CountOut, BitsAt;
      var h := history;
      Extend(h, e);
      ExtendLegal(h, e, definitions);
      TrafficRecorded(h, e, timeBurst, maxBits);
      history := h + [e];
      assert SinceReset(h + [e]) == s + [e];
    }

    /** The part of `push` before any decision: traffic, profile and the count of slow packets. */
    method Observe(time: int, p: Packet)
      requires Valid()
      modifies this`timeBurst, this`maxBits, this`behavior, this`foundFirstBurst, this`lowBurstRate
      ensures TrafficIs(history, time, p)
      ensures Profile(foundFirstBurst, behavior) == ProfileNow(history, time, p)
      ensures lowBurstRate == LowNow(history, time, p)
    {
      hide Legal, Judged, Counted, Largest, BurstsAre, IsLargest, FlagsAre, ProfileAfter, ProfileNow, LowAfter, LowNow,
          StartOf, SinceReset, CountOut, BitsAt;
      LargestNow(history, time, p, maxBits);
      Count(time, p);
      CountedBits(timeBurst, history, time, p);
      Track(time, p);
      CountedBits(timeBurst, history, time, p);
      if timeBurst[time] < Megabit {
        lowBurstRate := lowBurstRate + 1;
      }
      LowIs(history, time, p);
    }

    /** A packet that takes the first output. */
    method Throttle(ghost s: seq<Event>, ghost e: Event) returns (out: nat)
      requires CanRecord(s, e) && PeriodIs(s) && !e.flags && e.out == 0
      modifies this`throttled, this`history
      ensures Valid() && history == old(history) + [e] && out == e.out
    {
      hide Legal, Judged, Counted, Largest, BurstsAre, IsLargest, FlagsAre, ProfileAfter, ProfileNow, LowAfter, LowNow,
          StartOf, SinceReset, CountOut, BitsAt, LowFields;
      ExtendSince(s, e);
      FlagsNone(flaggedIps, s, e);
      throttled := throttled + 1;
      Record(s, e);
      out := 0;
    }

    /** A packet of a flagged pair. */
    method PassFlagged(ghost s: seq<Event>, ghost e: Event) returns (out: nat)
      requires CanRecord(s, e) && PeriodIs(s) && !e.flags && e.out == 1
      modifies this`unthrottled, this`history
      ensures Valid() && history == old(history) + [e] && out == e.out
    {
      hide Legal, Judged, Counted, Largest, BurstsAre, IsLargest, FlagsAre, ProfileAfter, ProfileNow, LowAfter, LowNow,
          StartOf, SinceReset, CountOut, BitsAt, LowFields;
      ExtendSince(s, e);
      FlagsNone(flaggedIps, s, e);
      unthrottled := unthrottled + 1;
      Record(s, e);
      out := 1;
    }

    /** A packet that flags its pair; only the iperf rule leaves the period's start alone. */
    method FlagPair(pair1: string, pair2: string, time: int, starts: bool, ghost s: seq<Event>, ghost e: Event)
        returns (out: nat)
      requires CanRecord(s, e) && PeriodIs(s) && e.flags && e.out == 1
      requires e.time == time && (starts <==> !Iperf(e.packet)) && WellFormed(e.packet)
      requires pair1 == Key(e.packet.source, e.packet.destination)
          && pair2 == Key(e.packet.destination, e.packet.source)
      modifies this`unthrottled, this`flaggedIps, this`startBurst, this`history
      ensures Valid() && history == old(history) + [e] && out == e.out
    {
      hide Legal, Judged, Counted, Largest, BurstsAre, IsLargest, FlagsAre, ProfileAfter, ProfileNow, LowAfter, LowNow,
          StartOf, SinceReset, CountOut, BitsAt, LowFields, Key, Iperf;
      ExtendSince(s, e);
      FlagsSet(flaggedIps, s, e);
      unthrottled := unthrottled + 1;
      flaggedIps := flaggedIps[pair1 := true];
      flaggedIps := flaggedIps[pair2 := true];
      if starts && startBurst == 0 {
        startBurst := time;
      }
      Record(s, e);
      out := 1;
    }

    /** The test of the two keys of a pair, which may add either. */
    method LookUp(pair1: string, pair2: string, ghost s: seq<Event>, ghost p: Packet) returns (flagged: bool)
      requires FlagsAre(flaggedIps, s) && WellFormed(p)
      requires pair1 == Key(p.source, p.destination) && pair2 == Key(p.destination, p.source)
      modifies this`flaggedIps
      ensures FlagsAre(flaggedIps, s)
      ensures flagged <==> FlaggedIn(s, p.source, p.destination)
    {
      hide FlagsAre, FlaggedIn, Flag, Key;
      FlagsPair(flaggedIps, s, p);
      FlagsTouched(flaggedIps, s, pair1);
      flagged := Flag(flaggedIps, pair1);
      flaggedIps := flaggedIps[pair1 := flagged];
      if !flagged {
        FlagsPair(flaggedIps, s, p);
        FlagsTouched(flaggedIps, s, pair2);
        flagged := Flag(flaggedIps, pair2);
        flaggedIps := flaggedIps[pair2 := flagged];
      }
    }

    /** A new observation period, if the old one is over. */
    method ResetIfOver(time: int, p: Packet) returns (ghost reset: bool, ghost since: seq<Event>)
      requires PeriodIs(SinceReset(history))
      requires Profile(foundFirstBurst, behavior) == ProfileNow(history, time, p)
      requires lowBurstRate == LowNow(history, time, p)
      modifies this`foundFirstBurst, this`lowBurstRate, this`startBurst, this`flaggedIps, this`throttled,
               this`unthrottled, this`behavior
      ensures reset == Expired(history, time, p) && since == if reset then [] else SinceReset(history)
      ensures PeriodIs(since)
      ensures Profile(foundFirstBurst, behavior) == if reset then Profile(true, map[]) else ProfileNow(history, time, p)
      ensures lowBurstRate == if reset then 0 else LowNow(history, time, p)
    {
      hide FlagsAre, ProfileNow, LowNow, StartOf, SinceReset, CountOut, Expired;
      reset, since := Expired(history, time, p), SinceReset(history);
      ExpiredIs(history, time, p);
      if (startBurst > 0 && time - startBurst > ObservationThreshold) || |behavior| > ObservationThreshold {
        foundFirstBurst := true;
        lowBurstRate := 0;
        startBurst := 0;
        flaggedIps := map[];
        throttled := 0;
        unthrottled := 0;
        behavior := map[];
        since := [];
        PeriodStart();
      }
    }

    /** The decisions after the protocol check: reset if the period is over, then flagged pairs,
        hellos, known profiles and the rest.  `current` is the profile's text before the reset. */
    method Judge(time: int, p: Packet, pair1: string, pair2: string, current: string) returns (out: nat)
      requires TrafficIs(history, time, p) && PeriodIs(SinceReset(history)) && time > 0 && WellFormed(p)
      requires Profile(foundFirstBurst, behavior) == ProfileNow(history, time, p)
      requires lowBurstRate == LowNow(history, time, p) <= 115
      requires !Iperf(p) && Measurable(p)
      requires current == ProfileText(behavior)
      requires pair1 == Key(p.source, p.destination) && pair2 == Key(p.destination, p.source)
      modifies this
      ensures Valid()
      ensures |history| == |old(history)| + 1 && history[..|old(history)|] == old(history)
      ensures var e := history[|old(history)|]; e.time == time && e.packet == p && e.out == out
    {
      hide Legal, Judged, Counted, Largest, BurstsAre, IsLargest, FlagsAre, ProfileAfter, ProfileNow, LowAfter, LowNow,
          StartOf, SinceReset, CountOut, BitsAt, Flag, Key, Text4, Expired, Iperf, ProfileText, FlaggedIn;
      ghost var h := history;
      ghost var reset, since := ResetIfOver(time, p);
      JudgedAs(h, time, p, reset, since, definitions);
      var flagged := LookUp(pair1, pair2, since, p);
      if flagged {
        out := PassFlagged(since, Event(time, p, 1, false, reset, false));
        return;
      }
      if p.protocol == Tcp && p.toolHello {
        out := FlagPair(pair1, pair2, time, true, since, Event(time, p, 1, false, reset, true));
        return;
      }
      if current in definitions {
        out := FlagPair(pair1, pair2, time, true, since, Event(time, p, 1, false, reset, true));
        return;
      }
      out := Throttle(since, Event(time, p, 0, false, reset, false));
    }

    /** `push`: every packet leaves on the output that the history calls for, and the fields change
        as `Turn` says. */
    method Push(time: int, p: Packet) returns (out: nat)
      requires Valid()
      requires time > 0 && WellFormed(p)
      modifies this
      ensures Valid()
      ensures |history| == |old(history)| + 1 && history[..|old(history)|] == old(history)
      ensures var e := history[|old(history)|]; e.time == time && e.packet == p && e.out == out
      ensures var now, before := Bits(timeBurst, time), Bits(timeBurst, time - 1);
              now > 0 && behavior != map[] ==>
                && time in behavior && behavior[time] in {0, 1, 2}
                && (behavior[time] == 2 <==> now - before >= 11_000_000)
                && (behavior[time] == 0 <==> 1_000_000 <= before - now < 10_000_000)
      ensures Turn(old(AllFields()), AllFields(), time, p, out, definitions)
    {
      hide Legal, Judged, FieldsAre, Turn, WellFormed;
      ghost var h, f := history, AllFields();
      FieldsHold();
      out := Take(time, p);
      FieldsHold();
      ghost var e := history[|h|];
      assert history == h + [e];
      LastJudged(history, definitions);
      assert history[..|h|] == h;
      TurnOf(h, e, definitions, f, AllFields());
      TurnEntry(f, AllFields(), time, p, out, definitions);
    }

    ghost function AllFields(): Fields
      reads this
    {
      Fields(timeBurst, behavior, foundFirstBurst, flaggedIps, lowBurstRate, maxBits, startBurst, throttled,
          unthrottled)
    }

    lemma FieldsHold()
      requires Valid()
      ensures Legal(history, definitions) && FieldsAre(AllFields(), history)
    {
      hide Legal, BurstsAre, IsLargest, FlagsAre, ProfileAfter, LowAfter, StartOf, SinceReset, CountOut;
    }

    /** The body of `push`. */
    method Take(time: int, p: Packet) returns (out: nat)
      requires Valid()
      requires time > 0 && WellFormed(p)
      modifies this
      ensures Valid()
      ensures |history| == |old(history)| + 1 && history[..|old(history)|] == old(history)
      ensures var e := history[|old(history)|]; e.time == time && e.packet == p && e.out == out
    {
      hide Legal, Judged, Counted, Largest, BurstsAre, IsLargest, FlagsAre, ProfileAfter, ProfileNow, LowAfter, LowNow,
          StartOf, SinceReset, CountOut, BitsAt, Key, Text4, Iperf, ProfileText;
      Observe(time, p);
      var source := GetIpString(p.source);
      var destination := GetIpString(p.destination);
      var pair1 := source + ":" + destination;
      var pair2 := destination + ":" + source;
      KeyIs(p);
      var current := CurrentBehavior(behavior);
      IperfEither(p);
      ghost var h, since, low := history, SinceReset(history), lowBurstRate > 115;
      if source == "45.147.210.189" || destination == "45.147.210.189" {
        JudgedIperf(h, Event(time, p, 1, low, false, true), definitions);
        out := FlagPair(pair1, pair2, time, false, since, Event(time, p, 1, low, false, true));
        return;
      }
      var dns := p.protocol != Other && p.dnsBytes;
      var other := p.protocol == Other || dns;
      if other || lowBurstRate > 115 {
        JudgedThrottled(h, Event(time, p, 0, low, false, false), definitions);
        if !other {
          lowBurstRate := 0;
        }
        out := Throttle(since, Event(time, p, 0, low, false, false));
        return;
      }
      out := Judge(time, p, pair1, pair2, current);
    }
  }

  // ----- Whole runs

  /** The two counters add up to the packets since the last reset. */
  lemma {:induction false} CountersAddUp(s: seq<Event>)
    requires forall i :: 0 <= i < |s| ==> s[i].out in {0, 1}
    ensures CountOut(s, 0) + CountOut(s, 1) == |s|
  {
    if s != [] {
      CountersAddUp(s[..|s| - 1]);
    }
  }

  lemma {:induction false} SinceResetIs(h: seq<Event>) returns (k: nat)
    ensures k <= |h| && SinceReset(h) == h[k..]
    ensures forall i :: k < i < |h| ==> !h[i].reset
    ensures k < |h| && k > 0 ==> h[k].reset
    ensures k == |h| ==> h == []
  {
    if h == [] {
      k := 0;
    } else {
      var n := |h| - 1;
      if h[n].reset {
        k := n;
      } else {
        k := SinceResetIs(h[..n]);
        assert h[k..] == h[..n][k..] + [h[n]];
        if n == 0 {
          assert k == 0;
        }
      }
    }
  }

  /** Once a pair is flagged, its TCP and UDP packets other than DNS take the second output until
      a reset, except while there have been too many slow packets. */
  lemma StaysFlagged(h: seq<Event>, definitions: set<string>, i: nat, j: nat)
    requires Legal(h, definitions) && i < j < |h|
    requires h[i].flags && Between(h[j].packet, h[i].packet.source, h[i].packet.destination)
    requires forall k :: i < k <= j ==> !h[k].reset
    requires Measurable(h[j].packet) && !h[j].low
    ensures h[j].out == 1
  {
    hide LowNow, Expired, ProfileText, ProfileNow, SinceReset;
    var before, e := h[..j], h[j];
    assert Judged(before, e, definitions);
    var k := SinceResetIs(before);
    assert k <= i by {
      StartsBefore(before, k, i);
    }
    var s := SinceReset(before);
    assert s[i - k] == h[i];
    assert Between(s[i - k].packet, e.packet.source, e.packet.destination);
    assert FlaggedIn(s, e.packet.source, e.packet.destination);
  }

  lemma LegalSince(h: seq<Event>, definitions: set<string>)
    requires Legal(h, definitions)
    ensures forall i :: 0 <= i < |SinceReset(h)| ==> SinceReset(h)[i].out in {0, 1}
  {
    hide SinceReset, LowNow, Expired, ProfileText, ProfileNow, FlaggedIn;
    var k := SinceResetIs(h);
    forall i | 0 <= i < |SinceReset(h)| ensures SinceReset(h)[i].out in {0, 1} {
      assert SinceReset(h)[i] == h[k + i];
      assert Judged(h[..k + i], h[k + i], definitions);
    }
  }

  lemma StartsBefore(h: seq<Event>, k: nat, i: nat)
    requires i < |h| && k <= |h| && (k == |h| ==> h == []) && (k < |h| && k > 0 ==> h[k].reset)
    requires forall m :: i < m < |h| ==> !h[m].reset
    ensures k <= i
  {
  }
}
