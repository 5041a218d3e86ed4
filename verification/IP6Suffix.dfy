/** The IPv6 texts accepted because of an IPv4 suffix, and with them all texts accepted. */
module IP6Suffix {
  import opened IP4Text
  import opened IP6Text
  import opened IP6Forms

  // ----- The forms

  /** How many hexadecimal digits a text begins with, up to four. */
  function Lead(s: string): (k: nat)
    ensures k <= 4 && k <= |s| && AllHex(s[..k])
    ensures k < 4 && k < |s| ==> HexDigit(s[k]) < 0
  {
    if s == "" || HexDigit(s[0]) < 0 then 0
    else if |s| == 1 || HexDigit(s[1]) < 0 then 1
    else if |s| == 2 || HexDigit(s[2]) < 0 then 2
    else if |s| == 3 || HexDigit(s[3]) < 0 then 3
    else 4
  }

  /** The scanner stops in `s` before its end, and not at a colon behind digits. */
  predicate Stops(s: string) {
    Lead(s) < |s| && (Lead(s) > 0 ==> s[Lead(s)] != ':')
  }

  /** An IPv4 address as two groups. */
  function Two(v: Address4): seq<nat> {
    [v[0] * 256 + v[1], v[2] * 256 + v[3]]
  }

  function Around(u: seq<nat>, w: seq<nat>): seq<nat> {
    if |u| + |w| <= 8 then u + Zeros(8 - |u| - |w|) + w else u + w
  }

  /** Six groups, a colon, and the suffix. */
  ghost predicate AfterSix(str: string, t: nat, u: seq<nat>) {
    t < |str| && str[t] == ':' && |u| == 6 && Read(str[..t], u) && Stops(str[t + 1..]) && str[t + 1] != ':'
  }

  /** Seven groups and a colon at the end: the suffix is empty and takes the seventh group's place. */
  ghost predicate AfterSeven(str: string, t: nat, u: seq<nat>) {
    t + 1 == |str| && str[t] == ':' && |u| == 7 && Read(str[..t], u)
  }

  /** The suffix right behind `::`. */
  ghost predicate AfterDouble(str: string, t: nat, n: nat, u: seq<nat>) {
    DoubleAt(str, n) && t == n + 1 && Part(str[..n], u) && |u| <= 5 && Stops(str[t + 1..]) && str[t + 1] != ':'
  }

  /** The suffix behind three colons. */
  ghost predicate AfterTriple(str: string, t: nat, n: nat, u: seq<nat>) {
    DoubleAt(str, n) && t == n + 2 && t < |str| && str[t] == ':' && Part(str[..n], u) && |u| <= 5
  }

  /** The suffix behind `::`, more groups and a colon. */
  ghost predicate AfterGroup(str: string, t: nat, n: nat, u: seq<nat>, w: seq<nat>) {
    && DoubleAt(str, n) && n + 2 <= t < |str| && str[t] == ':' && Part(str[..n], u) && Read(str[n + 2..t], w)
    && |u| + |w| <= 5 && Stops(str[t + 1..])
  }

  /** The same with a colon at the end: the empty suffix takes the last group's place. */
  ghost predicate AfterLast(str: string, t: nat, n: nat, u: seq<nat>, w: seq<nat>) {
    && DoubleAt(str, n) && n + 2 <= t && t + 1 == |str| && str[t] == ':' && Part(str[..n], u) && Read(str[n + 2..t], w)
    && w != [] && |u| + |w| <= 6
  }

  /** Groups before the suffix at `t`, and the address with `v` as the suffix. */
  ghost predicate HeadAt(str: string, t: nat, v: Address4, a: seq<nat>) {
    || (exists u :: AfterSix(str, t, u) && a == u + Two(v))
    || (exists u :: AfterSeven(str, t, u) && a == u[..6] + Two(v))
    || (exists n: nat, u :: AfterDouble(str, t, n, u) && a == Around(u, Two(v)))
    || (exists n: nat, u :: AfterTriple(str, t, n, u) && a == Around(u, Two(v)))
    || (exists n: nat, u, w :: AfterGroup(str, t, n, u, w) && a == Around(u, w + Two(v)))
    || (exists n: nat, u, w :: AfterLast(str, t, n, u, w) && a == Around(u, w[..|w| - 1] + Two(v)))
  }

  ghost predicate SuffixedAt(str: string, t: nat, a: seq<nat>, query: string -> Option<Address4>) {
    t < |str| && Parse4(str[t + 1..], query).Some? && HeadAt(str, t, Parse4(str[t + 1..], query).value, a)
  }

  /** The text of an address with an IPv4 suffix, well formed or not. */
  ghost predicate Suffixed(str: string, a: seq<nat>, query: string -> Option<Address4>) {
    exists t: nat :: SuffixedAt(str, t, a, query)
  }

  // ----- What the suffix does

  /** The group that the suffix goes to. */
  function Target(end: State): int {
    var d := if end.p == 0 then end.d - 1 else end.d;
    if d == end.coloncolon then d + 1 else d
  }

  /** When the parser looks for a suffix. */
  predicate Looks(end: State) {
    var d := if end.p == 0 then end.d - 1 else end.d;
    d == 6 || (d < 6 && end.coloncolon >= 0)
  }

  function WithTwo(parts: seq<nat>, g: nat, v: Address4): seq<nat>
    requires |parts| == 8 && g <= 6
  {
    parts[g := v[0] * 256 + v[1]][g + 1 := v[2] * 256 + v[3]]
  }

  lemma SuffixFinish(str: string, end: State, query: string -> Option<Address4>)
    requires Good(end) && end.s < |str| && Looks(end) && MaybeSuffix(str, end.s, query).Some? && Target(end) <= 6
    ensures Target(end) > end.coloncolon && 0 <= Target(end)
    ensures Finish(str, end, query) ==
      Expand(|str|, Target(end) + 1, end.coloncolon,
          WithTwo(end.parts, Target(end), MaybeSuffix(str, end.s, query).value))
  {
    hide MaybeSuffix, Expand;
  }

  /** The value of groups with a suffix. */
  function Value(parts: seq<nat>, coloncolon: int, g: nat, v: Address4): seq<nat>
    requires |parts| == 8 && coloncolon < g <= 6
  {
    if coloncolon < 0 then parts[..6] + Two(v) else Around(parts[..coloncolon], parts[coloncolon + 1..g] + Two(v))
  }

  lemma SuffixValue(parts: seq<nat>, coloncolon: int, g: nat, v: Address4, s: nat)
    requires |parts| == 8 && -1 <= coloncolon < g <= 6
    requires if coloncolon < 0 then g == 6 else parts[coloncolon] == 0
    ensures Expand(s, g + 1, coloncolon, WithTwo(parts, g, v)) == Stopped(s, Value(parts, coloncolon, g, v))
  {
    var now := WithTwo(parts, g, v);
    if coloncolon < 0 {
      assert now == parts[..6] + Two(v);
    } else {
      hide Expand;
      var u, w := parts[..coloncolon], parts[coloncolon + 1..g] + Two(v);
      assert now[..coloncolon + 1] == u + [0];
      assert now[coloncolon + 1..g + 2] == w;
      ExpandShort(now, u, w, s);
    }
  }

  /** A text that is read to its end by its suffix. */
  lemma AcceptedBySuffix(str: string, end: State, a: seq<nat>, query: string -> Option<Address4>)
    requires Good(end) && end.s < |str| && Finish(str, end, query) == Stopped(|str|, a)
    ensures Looks(end) && MaybeSuffix(str, end.s, query).Some? && Target(end) <= 6
    ensures end.coloncolon < 0 ==> Target(end) == 6
  {
    hide MaybeSuffix;
  }

  // ----- From the scanner to the text

  /** Where the scanner stopped with a suffix, and what it found there. */
  ghost predicate Found(str: string, end: State, a: seq<nat>, query: string -> Option<Address4>) {
    && Good(end) && end.s < |str| && Looks(end) && MaybeSuffix(str, end.s, query).Some? && Target(end) <= 6
    && end.coloncolon < Target(end) && (end.coloncolon < 0 ==> Target(end) == 6)
    && a == Value(end.parts, end.coloncolon, Target(end), MaybeSuffix(str, end.s, query).value)
  }

  lemma FoundAt(str: string, end: State, a: seq<nat>, query: string -> Option<Address4>, t: nat)
    requires Found(str, end, a, query) && LastColon(str, end.s) == t
    ensures t > 0 && t < |str| && Parse4(str[t + 1..], query) == MaybeSuffix(str, end.s, query)
  {
    hide Parse4, LastColon, Value;
  }

  /** Right behind `::`. */
  lemma StoppedBehindDouble(str: string, end: State, a: seq<nat>, query: string -> Option<Address4>)
    requires Found(str, end, a, query) && Reached(str, end) && Step(str, end) == Halt(end) && end.p == 0
    ensures Suffixed(str, a, query)
  {
    hide Parse4, LastColon, Read, Ends, MaybeSuffix, Lead;
    var cc := end.coloncolon;
    assert HexDigit(str[end.s]) < 0;
    assert cc >= 0 && end.d == cc + 1;
    var n: nat :| SeenAt(str, end, n);
    assert end.parts[cc + 1..cc + 1] == [] && |str[n + 2..end.s]| == 0;
    SuffixColon(str, n);
    var t := LastColon(str, end.s);
    FoundAt(str, end, a, query, t);
    var u, v := end.parts[..cc], MaybeSuffix(str, end.s, query).value;
    assert [] + Two(v) == Two(v);
    if str[n + 2] == ':' {
      assert AfterTriple(str, t, n, u);
    } else {
      LeadNone(str[n + 2..]);
      assert AfterDouble(str, t, n, u);
    }
    assert SuffixedAt(str, t, a, query);
  }

  lemma LeadNone(s: string)
    requires s != "" && HexDigit(s[0]) < 0
    ensures Lead(s) == 0 && Stops(s)
  {
  }

  lemma LeadIs(s: string, p: nat)
    requires 1 <= p <= 4 && p < |s| && AllHex(s[..p]) && (p < 4 ==> HexDigit(s[p]) < 0)
    ensures Lead(s) == p
  {
    forall i | 0 <= i < p ensures HexDigit(s[i]) >= 0 { assert s[..p][i] == s[i]; }
  }

  /** The run just read, seen from its beginning. */
  lemma RunSeen(str: string, from: nat, s: nat, vals: seq<nat>, p: nat)
    requires from <= s < |str| && str[s] != ':' && (p < 4 ==> HexDigit(str[s]) < 0)
    requires Ends(str[from..s], vals, p) && (|vals| == 1 ==> from > 0 && str[from - 1] == ':')
    ensures p <= s - from && var t := s - p - 1;
            && 0 <= t && LastColon(str, s) == t && Stops(str[t + 1..]) && str[t + 1] != ':'
            && (|vals| == 1 ==> t + 1 == from)
            && (|vals| > 1 ==> from < t + 1 && str[t] == ':' && Read(str[from..t], vals[..|vals| - 1]))
  {
    hide Read, LastColon, Ends, Stops, HexValue, HexDigit, AllHex;
    var text := str[from..s];
    EndsParts(text, vals, p);
    var t := s - p - 1;
    RunPlace(str, from, s, p);
    RunDigits(str, t, s, p);
    LastColonAt(str, t, s);
    RunStops(str[t + 1..], p);
  }

  /** The last `p` characters before `s`, seen from `from` and from the place before them. */
  lemma RunPlace(str: string, from: nat, s: nat, p: nat)
    requires from <= s < |str| && p <= s - from && 0 <= s - p - 1
    ensures var text, t := str[from..s], s - p - 1;
            && text[|text| - p..] == str[t + 1..s] && str[t + 1..][..p] == str[t + 1..s] && str[t + 1..][p] == str[s]
            && (p < |text| ==> text[|text| - p - 1] == str[t] && text[..|text| - p - 1] == str[from..t])
  {
  }

  lemma RunDigits(str: string, t: nat, s: nat, p: nat)
    requires t + p + 1 == s < |str| && AllHex(str[t + 1..s])
    ensures forall i :: t < i < s ==> HexDigit(str[i]) >= 0 && str[i] != ':'
  {
    var run := str[t + 1..s];
    forall i | t < i < s ensures HexDigit(str[i]) >= 0 && str[i] != ':' {
      assert run[i - t - 1] == str[i];
    }
  }

  lemma RunStops(s: string, p: nat)
    requires 1 <= p <= 4 && p < |s| && AllHex(s[..p]) && (p < 4 ==> HexDigit(s[p]) < 0) && s[p] != ':'
    ensures Stops(s)
  {
    LeadIs(s, p);
  }

  lemma HaltsInRun(str: string, end: State)
    requires Good(end) && end.s < |str| && end.p > 0 && str[end.s] != ':' && Step(str, end) == Halt(end)
    ensures end.p < 4 ==> HexDigit(str[end.s]) < 0
  {
  }

  lemma StoppedInRun(str: string, end: State, a: seq<nat>, query: string -> Option<Address4>)
    requires Found(str, end, a, query) && Reached(str, end) && Step(str, end) == Halt(end)
    requires end.p > 0 && str[end.s] != ':'
    ensures Suffixed(str, a, query)
  {
    hide Parse4, LastColon, Read, Ends, MaybeSuffix, Stops, Step, Part;
    HaltsInRun(str, end);
    if end.coloncolon < 0 {
      RunAfterSix(str, end, a, query);
    } else {
      var n: nat :| SeenAt(str, end, n);
      RunAfterDouble(str, end, a, query, n);
    }
  }

  lemma RunAfterSix(str: string, end: State, a: seq<nat>, query: string -> Option<Address4>)
    requires Found(str, end, a, query) && end.coloncolon < 0 && end.p > 0 && Ends(str[..end.s], end.parts[..7], end.p)
    requires str[end.s] != ':' && (end.p < 4 ==> HexDigit(str[end.s]) < 0)
    ensures Suffixed(str, a, query)
  {
    hide Parse4, LastColon, Read, Ends, MaybeSuffix, Stops;
    var t := end.s - end.p - 1;
    assert str[0..end.s] == str[..end.s];
    RunSeen(str, 0, end.s, end.parts[..7], end.p);
    FoundAt(str, end, a, query, t);
    assert end.parts[..7][..6] == end.parts[..6] && str[0..t] == str[..t];
    assert AfterSix(str, t, end.parts[..6]);
    assert SuffixedAt(str, t, a, query);
  }

  lemma RunAfterDouble(str: string, end: State, a: seq<nat>, query: string -> Option<Address4>, n: nat)
    requires Found(str, end, a, query) && end.coloncolon >= 0 && end.p > 0 && end.d < 8
    requires n + 2 <= end.s && DoubleAt(str, n) && Part(str[..n], end.parts[..end.coloncolon])
    requires Ends(str[n + 2..end.s], end.parts[end.coloncolon + 1..end.d + 1], end.p)
    requires str[end.s] != ':' && (end.p < 4 ==> HexDigit(str[end.s]) < 0)
    ensures Suffixed(str, a, query)
  {
    hide Parse4, LastColon, Read, Ends, MaybeSuffix, Stops, Part;
    var cc, d, t := end.coloncolon, end.d, end.s - end.p - 1;
    var u, vals, v := end.parts[..cc], end.parts[cc + 1..d + 1], MaybeSuffix(str, end.s, query).value;
    RunSeen(str, n + 2, end.s, vals, end.p);
    FoundAt(str, end, a, query, t);
    if |vals| == 1 {
      assert end.parts[cc + 1..d] + Two(v) == Two(v);
      assert AfterDouble(str, t, n, u);
    } else {
      assert vals[..|vals| - 1] == end.parts[cc + 1..d];
      assert AfterGroup(str, t, n, u, vals[..|vals| - 1]);
    }
    assert SuffixedAt(str, t, a, query);
  }

  /** At a colon: the groups before it are complete. */
  lemma GroupsBefore(str: string, st: State) returns (n: nat)
    requires Reached(str, st) && st.p > 0
    ensures st.coloncolon < 0 ==> Read(str[..st.s], st.parts[..st.d + 1])
    ensures st.coloncolon >= 0 ==> st.coloncolon <= st.d && n + 2 <= st.s && DoubleAt(str, n)
    ensures st.coloncolon >= 0 ==> Part(str[..n], st.parts[..st.coloncolon])
    ensures st.coloncolon >= 0 ==> Read(str[n + 2..st.s], st.parts[st.coloncolon + 1..st.d + 1])
  {
    hide Read, Ends;
    n := 0;
    if st.coloncolon < 0 {
      PartialColon(str[..st.s], st.parts[..st.d + 1], st.p);
    } else {
      n :| SeenAt(str, st, n);
      PartialColon(str[n + 2..st.s], st.parts[st.coloncolon + 1..st.d + 1], st.p);
    }
  }

  lemma HaltsAtLast(str: string, end: State)
    requires Good(end) && end.s < |str| && end.p > 0 && end.d < 7 && str[end.s] == ':' && Step(str, end) == Halt(end)
    ensures end.s + 1 == |str| && LastColon(str, end.s) == end.s
  {
  }

  /** At a colon that ends the text. */
  lemma StoppedAtEnd(str: string, end: State, a: seq<nat>, query: string -> Option<Address4>)
    requires Found(str, end, a, query) && Reached(str, end) && Step(str, end) == Halt(end)
    requires end.p > 0 && str[end.s] == ':'
    ensures Suffixed(str, a, query)
  {
    hide Parse4, Read, Ends, MaybeSuffix, Reached, Step, LastColon;
    var t, cc, d := end.s, end.coloncolon, end.d;
    HaltsAtLast(str, end);
    FoundAt(str, end, a, query, t);
    var n := GroupsBefore(str, end);
    if cc < 0 {
      assert end.parts[..7][..6] == end.parts[..6];
      assert AfterSeven(str, t, end.parts[..7]);
    } else {
      var w := end.parts[cc + 1..d + 1];
      assert w[..|w| - 1] == end.parts[cc + 1..d];
      assert AfterLast(str, t, n, end.parts[..cc], w);
    }
    assert SuffixedAt(str, t, a, query);
  }

  lemma HaltsAtColon(str: string, prev: State, end: State)
    requires Good(prev) && prev.s < |str| && end == prev.(d := prev.d + 1) && Step(str, prev) == Halt(end)
    requires Looks(end) && (end.coloncolon < 0 ==> Target(end) == 6)
    ensures prev.p > 0 && str[end.s] == ':' && end.s + 1 < |str| && HexDigit(str[end.s + 1]) < 0
    ensures end.coloncolon < 0 ==> str[end.s + 1] != ':'
    ensures LastColon(str, end.s) == end.s
  {
  }

  /** At a colon with something behind it that is not a group. */
  lemma StoppedAtColon(str: string, end: State, a: seq<nat>, query: string -> Option<Address4>)
    requires var prev := end.(d := end.d - 1);
             end.d > 0 && end.s < |str| && Good(prev) && Step(str, prev) == Halt(end) && Reached(str, prev)
    requires Found(str, end, a, query)
    ensures Suffixed(str, a, query)
  {
    var prev, t, cc := end.(d := end.d - 1), end.s, end.coloncolon;
    hide *;
    FoundLooks(str, end, a, query);
    HaltsAtColon(str, prev, end);
    FoundValue(str, end, a, query);
    var v := Parse4(str[t + 1..], query).value;
    LeadNone(str[t + 1..]);
    var n := GroupsBefore(str, prev);
    if cc < 0 {
      SixHead(str, end.parts, t, v, a);
    } else {
      GroupHead(str, end.parts, cc, end.d, t, n, v, a);
    }
    SuffixedBy(str, t, a, query);
  }

  lemma FoundLooks(str: string, end: State, a: seq<nat>, query: string -> Option<Address4>)
    requires Found(str, end, a, query)
    ensures Looks(end) && (end.coloncolon < 0 ==> Target(end) == 6) && |end.parts| == 8 && end.s < |str|
  {
    hide Looks, Target, Value, MaybeSuffix;
  }

  /** What was found at a colon. */
  lemma FoundValue(str: string, end: State, a: seq<nat>, query: string -> Option<Address4>)
    requires Found(str, end, a, query) && LastColon(str, end.s) == end.s && end.p > 0
    ensures |end.parts| == 8 && 0 < end.s < |str| && Parse4(str[end.s + 1..], query).Some?
    ensures var v := Parse4(str[end.s + 1..], query).value; var cc := end.coloncolon;
            if cc < 0 then a == Value(end.parts, -1, 6, v) && end.d == 6
            else cc < end.d ==> end.d <= 6 && a == Value(end.parts, cc, end.d, v)
  {
    hide Parse4, LastColon, MaybeSuffix;
    FoundAt(str, end, a, query, end.s);
  }

  lemma SuffixedBy(str: string, t: nat, a: seq<nat>, query: string -> Option<Address4>)
    requires t < |str| && Parse4(str[t + 1..], query).Some? && HeadAt(str, t, Parse4(str[t + 1..], query).value, a)
    ensures Suffixed(str, a, query)
  {
    hide Parse4, HeadAt;
    assert SuffixedAt(str, t, a, query);
  }

  lemma SixHead(str: string, parts: seq<nat>, t: nat, v: Address4, a: seq<nat>)
    requires |parts| == 8 && a == Value(parts, -1, 6, v)
    requires t + 1 < |str| && str[t] == ':' && str[t + 1] != ':' && Read(str[..t], parts[..6]) && Stops(str[t + 1..])
    ensures HeadAt(str, t, v, a)
  {
    hide Read, Stops;
    assert AfterSix(str, t, parts[..6]);
  }

  lemma GroupHead(str: string, parts: seq<nat>, cc: nat, d: nat, t: nat, n: nat, v: Address4, a: seq<nat>)
    requires |parts| == 8 && cc < d <= 6 && a == Value(parts, cc, d, v) && DoubleAt(str, n) && n + 2 <= t < |str|
    requires str[t] == ':' && Part(str[..n], parts[..cc]) && Read(str[n + 2..t], parts[cc + 1..d])
        && Stops(str[t + 1..])
    ensures HeadAt(str, t, v, a)
  {
    hide Read, Part, Stops;
    assert AfterGroup(str, t, n, parts[..cc], parts[cc + 1..d]);
  }

  lemma ZeroAtDouble(str: string, end: State)
    requires Ended(str, end) && end.coloncolon >= 0
    ensures end.coloncolon < |end.parts| && end.parts[end.coloncolon] == 0
  {
    hide Partial, Part, Step;
    var st := if Reached(str, end) then end else end.(d := end.d - 1);
    var n: nat :| SeenAt(str, st, n);
  }

  lemma EndFound(str: string, end: State, a: seq<nat>, query: string -> Option<Address4>)
    requires Ended(str, end) && Good(end) && end.s < |str| && Finish(str, end, query) == Stopped(|str|, a)
    ensures Found(str, end, a, query)
  {
    hide MaybeSuffix, Reached, Step, Finish, Value, Expand, Ended, Looks, Target;
    AcceptedBySuffix(str, end, a, query);
    SuffixFinish(str, end, query);
    if end.coloncolon >= 0 {
      ZeroAtDouble(str, end);
    }
    SuffixValue(end.parts, end.coloncolon, Target(end), MaybeSuffix(str, end.s, query).value, |str|);
  }

  lemma EndSuffix(str: string, end: State, a: seq<nat>, query: string -> Option<Address4>)
    requires Ended(str, end) && Good(end) && end.s < |str| && Finish(str, end, query) == Stopped(|str|, a)
    ensures Suffixed(str, a, query)
  {
    hide MaybeSuffix, Reached, Step, Suffixed, Finish, Found;
    EndFound(str, end, a, query);
    if Reached(str, end) && Step(str, end) == Halt(end) {
      if end.p == 0 {
        StoppedBehindDouble(str, end, a, query);
      } else if str[end.s] != ':' {
        StoppedInRun(str, end, a, query);
      } else {
        StoppedAtEnd(str, end, a, query);
      }
    } else {
      ReachedGood(str, end.(d := end.d - 1));
      StoppedAtColon(str, end, a, query);
    }
  }

  // ----- From the text to the scanner

  /** The scanner stopped with groups `end.parts` and the suffix at `t`. */
  lemma FromEnd(str: string, end: State, t: nat, a: seq<nat>, query: string -> Option<Address4>)
    requires Scan(str, Start()) == Halt(end) && Good(end) && end.s < |str| && Looks(end) && Target(end) <= 6
    requires LastColon(str, end.s) == t > 0 && t < |str| && Parse4(str[t + 1..], query).Some?
    requires end.coloncolon < Target(end)
    requires if end.coloncolon < 0 then Target(end) == 6 else end.parts[end.coloncolon] == 0
    requires a == Value(end.parts, end.coloncolon, Target(end), Parse4(str[t + 1..], query).value)
    ensures Parsed(str, query) == Stopped(|str|, a)
  {
    hide Scan, Parse4, LastColon, Value, Finish, Expand, Looks, Target;
    assert MaybeSuffix(str, end.s, query) == Parse4(str[t + 1..], query);
    SuffixFinish(str, end, query);
    SuffixValue(end.parts, end.coloncolon, Target(end), Parse4(str[t + 1..], query).value, |str|);
  }

  /** Reading on into a suffix that begins with digits. */
  lemma HaltInRun(str: string, st: State, t: nat) returns (end: State)
    requires Good(st) && st.d < 8 && st.p == 0 && st.s == t + 1 < |str| && str[t] == ':'
    requires Stops(str[t + 1..]) && HexDigit(str[t + 1]) >= 0
    ensures Good(end) && Scan(str, st) == Halt(end) && end.s < |str| && end.d == st.d && end.p > 0
    ensures end.coloncolon == st.coloncolon && end.parts[..st.d] == st.parts[..st.d] && LastColon(str, end.s) == t
  {
    hide Scan, LastColon, HexValue;
    var tail := str[t + 1..];
    var k := Lead(tail);
    assert k > 0;
    var run := tail[..k];
    assert str == str[..t + 1] + run + tail[k..];
    ScanRun(str[..t + 1], run, tail[k..], st);
    end := State(st.s + k, st.d, k, st.coloncolon, st.parts[st.d := HexValue(0, run)]);
    assert str[end.s] == tail[k];
    ScanNext(str, end);
    forall i | t < i <= end.s ensures str[i] != ':' {
      if i < end.s {
        assert run[i - t - 1] == str[i];
      }
    }
    LastColonAt(str, t, end.s);
  }

  /** Behind a group, at the colon `t`: what is behind it is not a group. */
  lemma HaltAtColon(str: string, st: State, t: nat) returns (end: State)
    requires Good(st) && st.s == t && t + 1 < |str| && str[t] == ':' && st.p > 0 && st.d < 7
    requires Stops(str[t + 1..]) && (st.coloncolon < 0 ==> str[t + 1] != ':')
    ensures Good(end) && Scan(str, st) == Halt(end) && end.s < |str| && end.d == st.d + 1 && end.p > 0
    ensures end.coloncolon == st.coloncolon && end.parts[..st.d + 1] == st.parts[..st.d + 1]
        && LastColon(str, end.s) == t
  {
    hide Scan, Stops;
    if HexDigit(str[t + 1]) < 0 {
      end := st.(d := st.d + 1);
      ScanNext(str, st);
    } else {
      hide LastColon;
      ColonStep(str, st);
      end := HaltInRun(str, State(st.s + 1, st.d + 1, 0, st.coloncolon, st.parts), t);
    }
  }

  lemma SixAccepted(str: string, t: nat, u: seq<nat>, query: string -> Option<Address4>)
    requires AfterSix(str, t, u) && Parse4(str[t + 1..], query).Some?
    ensures Parsed(str, query) == Stopped(|str|, u + Two(Parse4(str[t + 1..], query).value))
  {
    hide Scan, Parse4, Read, LastColon, Stops, Parsed;
    assert "" + str[..t] + str[t..] == str;
    var p := ScanRead("", str[..t], str[t..], u, Start());
    var st := Past(Start(), t, u, p);
    assert st.parts[..6] == u;
    assert t > 0 by {
      ReadNonempty(str[..t], u);
    }
    StopsNonempty(str[t + 1..]);
    var end := HaltAtColon(str, st, t);
    FromEnd(str, end, t, u + Two(Parse4(str[t + 1..], query).value), query);
  }

  lemma ReadNonempty(text: string, vals: seq<nat>)
    requires Read(text, vals)
    ensures text != "" && vals != []
  {
  }

  lemma StopsNonempty(s: string)
    requires Stops(s)
    ensures s != ""
  {
  }

  lemma SevenAccepted(str: string, t: nat, u: seq<nat>, query: string -> Option<Address4>)
    requires AfterSeven(str, t, u) && Parse4(str[t + 1..], query).Some?
    ensures Parsed(str, query) == Stopped(|str|, u[..6] + Two(Parse4(str[t + 1..], query).value))
  {
    hide Scan, Parse4, Read, Parsed;
    assert "" + str[..t] + str[t..] == str;
    var p := ScanRead("", str[..t], str[t..], u, Start());
    var st := Past(Start(), t, u, p);
    ReadNonempty(str[..t], u);
    ScanNext(str, st);
    assert st.parts[..6] == u[..6];
    assert LastColon(str, t) == t;
    FromEnd(str, st, t, u[..6] + Two(Parse4(str[t + 1..], query).value), query);
  }

  lemma DoubleAccepted(str: string, t: nat, n: nat, u: seq<nat>, query: string -> Option<Address4>)
    requires AfterDouble(str, t, n, u) && Parse4(str[t + 1..], query).Some?
    ensures Parsed(str, query) == Stopped(|str|, Around(u, Two(Parse4(str[t + 1..], query).value)))
  {
    hide Scan, Parse4, Read, LastColon, Stops, Parsed, Around;
    var k, v := |u|, Parse4(str[t + 1..], query).value;
    StopsNonempty(str[t + 1..]);
    var st := ScanShort(str, n, u);
    var end := st;
    if HexDigit(str[t + 1]) < 0 {
      ScanNext(str, st);
      SuffixColon(str, n);
    } else {
      end := HaltInRun(str, st, t);
    }
    assert end.parts[..k + 1] == st.parts[..k + 1];
    assert end.parts[..k] == end.parts[..k + 1][..k] == u && end.parts[k] == end.parts[..k + 1][k] == 0;
    assert end.parts[k + 1..k + 1] + Two(v) == Two(v);
    FromEnd(str, end, t, Around(u, Two(v)), query);
  }

  lemma TripleAccepted(str: string, t: nat, n: nat, u: seq<nat>, query: string -> Option<Address4>)
    requires AfterTriple(str, t, n, u) && Parse4(str[t + 1..], query).Some?
    ensures Parsed(str, query) == Stopped(|str|, Around(u, Two(Parse4(str[t + 1..], query).value)))
  {
    hide Scan, Parse4, Read, LastColon, Parsed, Around;
    var k, v := |u|, Parse4(str[t + 1..], query).value;
    var st := ScanShort(str, n, u);
    ScanNext(str, st);
    SuffixColon(str, n);
    assert st.parts[..k] == st.parts[..k + 1][..k] == u && st.parts[k] == st.parts[..k + 1][k] == 0;
    assert st.parts[k + 1..k + 1] + Two(v) == Two(v);
    FromEnd(str, st, t, Around(u, Two(v)), query);
  }

  /** Groups behind `::`, up to a colon. */
  lemma ScanBehind(str: string, t: nat, n: nat, u: seq<nat>, w: seq<nat>) returns (st: State)
    requires DoubleAt(str, n) && n + 2 <= t < |str| && Part(str[..n], u) && Read(str[n + 2..t], w) && |u| + |w| <= 6
    ensures Good(st) && st.s == t && st.d == |u| + |w| && st.p > 0 && st.coloncolon == |u|
    ensures Scan(str, Start()) == Scan(str, st)
    ensures st.parts[..|u| + |w| + 1] == u + [0] + w && w != []
  {
    hide Scan, Read;
    var before := ScanShort(str, n, u);
    assert str[..n + 2] + str[n + 2..t] + str[t..] == str;
    var p := ScanRead(str[..n + 2], str[n + 2..t], str[t..], w, before);
    st := Past(before, t - n - 2, w, p);
    assert st.parts[..|u| + |w| + 1] == before.parts[..|u| + 1] + w;
  }

  lemma GroupAccepted(str: string, t: nat, n: nat, u: seq<nat>, w: seq<nat>, query: string -> Option<Address4>)
    requires AfterGroup(str, t, n, u, w) && Parse4(str[t + 1..], query).Some?
    ensures Parsed(str, query) == Stopped(|str|, Around(u, w + Two(Parse4(str[t + 1..], query).value)))
  {
    hide Scan, Parse4, Read, LastColon, Stops, Parsed, Around;
    var k, g, v := |u|, |u| + |w| + 1, Parse4(str[t + 1..], query).value;
    StopsNonempty(str[t + 1..]);
    var st := ScanBehind(str, t, n, u, w);
    var end := HaltAtColon(str, st, t);
    ThreeParts(end.parts, u, w);
    FromEnd(str, end, t, Around(u, w + Two(v)), query);
  }

  lemma ThreeParts(parts: seq<nat>, u: seq<nat>, w: seq<nat>)
    requires |u| + |w| + 1 <= |parts| && parts[..|u| + |w| + 1] == u + [0] + w
    ensures parts[..|u|] == u && parts[|u|] == 0 && parts[|u| + 1..|u| + |w| + 1] == w
  {
    var all := parts[..|u| + |w| + 1];
    assert parts[..|u|] == all[..|u|] && parts[|u|] == all[|u|] && parts[|u| + 1..|u| + |w| + 1] == all[|u| + 1..];
  }

  lemma LastAccepted(str: string, t: nat, n: nat, u: seq<nat>, w: seq<nat>, query: string -> Option<Address4>)
    requires AfterLast(str, t, n, u, w) && Parse4(str[t + 1..], query).Some?
    ensures Parsed(str, query) == Stopped(|str|, Around(u, w[..|w| - 1] + Two(Parse4(str[t + 1..], query).value)))
  {
    hide Scan, Parse4, Read, Parsed, Around;
    var v := Parse4(str[t + 1..], query).value;
    var st := ScanBehind(str, t, n, u, w);
    ScanNext(str, st);
    ThreeParts(st.parts, u, w);
    assert st.parts[|u| + 1..|u| + |w|] == st.parts[|u| + 1..|u| + |w| + 1][..|w| - 1];
    assert LastColon(str, t) == t;
    FromEnd(str, st, t, Around(u, w[..|w| - 1] + Two(v)), query);
  }

  lemma SuffixAccepted(str: string, t: nat, a: seq<nat>, query: string -> Option<Address4>)
    requires SuffixedAt(str, t, a, query)
    ensures Parsed(str, query) == Stopped(|str|, a)
  {
    hide Parse4, Parsed, AfterSix, AfterDouble, AfterTriple, AfterGroup, Around, Read, Part;
    var v := Parse4(str[t + 1..], query).value;
    if u :| AfterSix(str, t, u) && a == u + Two(v) {
      SixAccepted(str, t, u, query);
    } else if u :| AfterSeven(str, t, u) && a == u[..6] + Two(v) {
      SevenAccepted(str, t, u, query);
    } else if n: nat, u :| AfterDouble(str, t, n, u) && a == Around(u, Two(v)) {
      DoubleAccepted(str, t, n, u, query);
    } else if n: nat, u :| AfterTriple(str, t, n, u) && a == Around(u, Two(v)) {
      TripleAccepted(str, t, n, u, query);
    } else if n: nat, u, w :| AfterGroup(str, t, n, u, w) && a == Around(u, w + Two(v)) {
      GroupAccepted(str, t, n, u, w, query);
    } else {
      var n: nat, u, w :| AfterLast(str, t, n, u, w) && a == Around(u, w[..|w| - 1] + Two(v));
      LastAccepted(str, t, n, u, w, query);
    }
  }

  /** Every text and every name service: the parser reads the whole text, with value `a`, exactly
      if the text is that of an address, with or without a suffix, or is empty. */
  lemma ParsesExactly(str: string, a: seq<nat>, query: string -> Option<Address4>)
    ensures Parsed(str, query) == Stopped(|str|, a) <==>
      Whole(str, a) || Suffixed(str, a, query) || (str == "" && a == Start().parts)
  {
    hide Scan, Whole, Ended, SuffixedAt, Finish;
    if Whole(str, a) {
      WholeAccepted(str, a, query);
    }
    if Suffixed(str, a, query) {
      var t: nat :| SuffixedAt(str, t, a, query);
      SuffixAccepted(str, t, a, query);
    }
    EmptyAccepted(query);
    if str != "" && Parsed(str, query) == Stopped(|str|, a) {
      StartReached(str);
      ScanEnds(str, Start());
      var end := Scan(str, Start()).st;
      if end.s < |str| {
        EndSuffix(str, end, a, query);
      } else {
        EndedAtEnd(str, end);
        FinishAtEnd(str, end, query);
        EndWhole(str, end);
      }
    }
  }

  lemma FinishAtEnd(str: string, end: State, query: string -> Option<Address4>)
    requires Good(end) && end.s == |str|
    ensures Finish(str, end, query) == Expand(end.s, if end.p == 0 then end.d - 1 else end.d, end.coloncolon, end.parts)
  {
    hide Expand;
  }
}
