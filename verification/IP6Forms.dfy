/** Which texts the IPv6 parser accepts, with which value, and for which it writes behind its
    eight groups.  Everything is said of the text alone. */
module IP6Forms {
  import opened IP4Text
  import opened IP6Text

  // ----- Groups in a text

  /** `text` is the runs of hexadecimal digits with values `vals`, single colons between them, and
      the last run has `p` digits. */
  ghost predicate Ends(text: string, vals: seq<nat>, p: nat)
    decreases |vals|, 0
  {
    && vals != [] && 1 <= p <= 4 && p <= |text|
    && var last, before := |vals| - 1, |text| - p;
       && AllHex(text[before..]) && HexValue(0, text[before..]) == vals[last]
       && if last == 0 then before == 0 else
           before > 0 && text[before - 1] == ':' && Read(text[..before - 1], vals[..last])
  }

  /** One or more runs of one to four digits, with single colons between them. */
  ghost predicate Read(text: string, vals: seq<nat>)
    decreases |vals|, 1
  {
    exists p :: 1 <= p <= 4 && Ends(text, vals, p)
  }

  /** Runs, or nothing. */
  ghost predicate Part(text: string, vals: seq<nat>) {
    if vals == [] then text == "" else Read(text, vals)
  }

  predicate DoubleAt(str: string, n: nat) {
    n + 1 < |str| && str[n] == ':' && str[n + 1] == ':'
  }

  /** `u` before a `::` at `n` and `v` behind it. */
  ghost predicate ShortAt(str: string, n: nat, u: seq<nat>, v: seq<nat>) {
    DoubleAt(str, n) && Part(str[..n], u) && Part(str[n + 2..], v) && |u| + |v| <= 7
  }

  ghost predicate Short(str: string, a: seq<nat>) {
    exists n: nat, u, v :: ShortAt(str, n, u, v) && a == u + Zeros(8 - |u| - |v|) + v
  }

  /** The text of an address without an IPv4 suffix: eight groups, or fewer around a `::`. */
  ghost predicate Whole(str: string, a: seq<nat>) {
    (|a| == 8 && Read(str, a)) || Short(str, a)
  }

  ghost predicate Groups(text: string, k: nat) {
    exists vals: seq<nat> :: |vals| == k && Read(text, vals)
  }

  ghost predicate SevenAt(str: string, n: nat) {
    n + 2 < |str| && DoubleAt(str, n) && Groups(str[..n], 7) && HexDigit(str[n + 2]) >= 0
  }

  /** Seven groups, `::` and a digit. */
  ghost predicate Seven(str: string) {
    exists n: nat :: SevenAt(str, n)
  }

  ghost predicate SixAt(str: string, n: nat, query: string -> Option<Address4>) {
    && n + 2 < |str| && DoubleAt(str, n) && Groups(str[..n], 6) && HexDigit(str[n + 2]) < 0
    && Parse4(str[if str[n + 2] == ':' then n + 3 else n + 2..], query).Some?
  }

  /** Six groups, `::`, perhaps a third colon, and something that is not a group but resolves to
      an IPv4 address. */
  ghost predicate Six(str: string, query: string -> Option<Address4>) {
    exists n: nat :: SixAt(str, n, query)
  }

  // ----- What the scanner has read

  /** Complete runs and a run of `p` digits, or complete runs and a colon, or nothing. */
  ghost predicate Partial(text: string, vals: seq<nat>, p: nat) {
    if p > 0 then Ends(text, vals, p)
    else if vals == [] then text == ""
    else text != "" && text[|text| - 1] == ':' && Read(text[..|text| - 1], vals)
  }

  /** How many groups have a value. */
  function Filled(st: State): int {
    if st.p > 0 then st.d + 1 else st.d
  }

  ghost predicate SeenAt(str: string, st: State, n: nat)
    requires Good(st) && 0 <= st.coloncolon < Filled(st) <= 8 && st.s <= |str|
  {
    && n + 2 <= st.s && DoubleAt(str, n)
    && Part(str[..n], st.parts[..st.coloncolon]) && st.parts[st.coloncolon] == 0
    && Partial(str[n + 2..st.s], st.parts[st.coloncolon + 1..Filled(st)], st.p)
  }

  /** The scanner's variables describe the text before `s`; a colon just read has a digit behind
      it. */
  ghost predicate Reached(str: string, st: State) {
    && Good(st) && st.s <= |str| && st.coloncolon < Filled(st) <= 8
    && (st.coloncolon < 0 ==> Partial(str[..st.s], st.parts[..Filled(st)], st.p))
    && (st.coloncolon >= 0 ==> exists n: nat :: SeenAt(str, st, n))
    && (st.p == 0 && st.d > st.coloncolon + 1 ==> st.s < |str| && HexDigit(str[st.s]) >= 0)
  }

  lemma StartReached(str: string)
    ensures Reached(str, Start())
  {
    assert str[..0] == "" && Start().parts[..0] == [];
  }

  // ----- One more character

  lemma {:induction false} HexBound(digits: string)
    requires AllHex(digits)
    ensures HexValue(0, digits) < Bound(|digits|)
    decreases |digits|
  {
    if digits != "" {
      var m := |digits| - 1;
      HexBound(digits[..m]);
      assert digits == digits[..m] + [digits[m]];
      HexValueLast(0, digits[..m], digits[m]);
    }
  }

  /** The group that a digit goes to, with its new value. */
  function WithDigit(vals: seq<nat>, p: nat, digit: nat): seq<nat>
    requires p > 0 ==> vals != []
  {
    if p == 0 then vals + [digit] else vals[..|vals| - 1] + [vals[|vals| - 1] * 16 + digit]
  }

  lemma EndsBound(text: string, vals: seq<nat>, p: nat)
    requires Ends(text, vals, p)
    ensures vals[|vals| - 1] < Bound(p)
  {
    HexBound(text[|text| - p..]);
  }

  lemma PartialDigit(text: string, vals: seq<nat>, p: nat, c: char)
    requires Partial(text, vals, p) && p < 4 && HexDigit(c) >= 0
    ensures p > 0 ==> vals != []
    ensures Partial(text + [c], WithDigit(vals, p, HexDigit(c)), p + 1)
  {
    if p == 0 {
      FirstDigitOf(text, vals, c);
    } else {
      NextDigitOf(text, vals, p, c);
    }
  }

  lemma FirstDigitOf(text: string, vals: seq<nat>, c: char)
    requires Partial(text, vals, 0) && HexDigit(c) >= 0
    ensures Ends(text + [c], vals + [HexDigit(c)], 1)
  {
    var now, after := text + [c], vals + [HexDigit(c)];
    assert now[|now| - 1..] == [c] && after[..|after| - 1] == vals;
    HexValueLast(0, "", c);
    assert "" + [c] == [c] && HexValue(0, "") == 0;
    if vals != [] {
      assert now[..|text| - 1] == text[..|text| - 1];
    }
  }

  lemma NextDigitOf(text: string, vals: seq<nat>, p: nat, c: char)
    requires Ends(text, vals, p) && p < 4 && HexDigit(c) >= 0
    ensures Ends(text + [c], vals[..|vals| - 1] + [vals[|vals| - 1] * 16 + HexDigit(c)], p + 1)
  {
    var now, last, before := text + [c], |vals| - 1, |text| - p;
    var after := vals[..last] + [vals[last] * 16 + HexDigit(c)];
    assert now[before..] == text[before..] + [c] && after[..last] == vals[..last];
    HexValueLast(0, text[before..], c);
    if last > 0 {
      assert now[..before - 1] == text[..before - 1];
    }
  }

  lemma PartialColon(text: string, vals: seq<nat>, p: nat)
    requires Ends(text, vals, p)
    ensures Partial(text + ":", vals, 0) && Read(text, vals)
  {
    var now := text + ":";
    assert now[..|now| - 1] == text;
  }

  // ----- One turn of the scanner

  /** A digit within the first groups or behind `::`, whichever `from` says. */
  lemma DigitStored(st: State, digit: nat, from: nat)
    requires Good(st) && st.p < 4 && st.d < 8 && from <= Filled(st) && (st.p > 0 ==> from <= st.d) && digit < 16
    requires st.p > 0 ==> st.parts[st.d] < Bound(st.p)
    ensures var parts := st.parts[st.d := ((if st.p != 0 then st.parts[st.d] * 16 else 0) + digit) % 0x1_0000];
            parts[from..st.d + 1] == WithDigit(st.parts[from..Filled(st)], st.p, digit)
  {
    assert Bound(1) == 16 && Bound(2) == 256 && Bound(3) == 0x1000;
    var parts := st.parts[st.d := ((if st.p != 0 then st.parts[st.d] * 16 else 0) + digit) % 0x1_0000];
    var old' := st.parts[from..Filled(st)];
    assert parts[from..st.d + 1] == parts[from..st.d] + [parts[st.d]];
    assert parts[from..st.d] == st.parts[from..st.d];
    if st.p > 0 {
      assert old'[..|old'| - 1] == st.parts[from..st.d] && old'[|old'| - 1] == st.parts[st.d];
    }
  }

  lemma DigitBound(text: string, st: State, from: nat)
    requires Good(st) && st.d < 8 && from <= Filled(st) && (st.p > 0 ==> from <= st.d)
    requires Partial(text, st.parts[from..Filled(st)], st.p)
    ensures st.p > 0 ==> st.parts[st.d] < Bound(st.p)
  {
    if st.p > 0 {
      var vals := st.parts[from..Filled(st)];
      EndsBound(text, vals, st.p);
      assert vals[|vals| - 1] == st.parts[st.d];
    }
  }

  /** Reading a digit behind `from` groups that do not change. */
  lemma DigitPartial(str: string, st: State, at: nat, from: nat)
    requires Good(st) && at <= st.s < |str| && st.p < 4 && st.d < 8 && HexDigit(str[st.s]) >= 0
    requires from <= Filled(st) && (st.p > 0 ==> from <= st.d)
    requires Partial(str[at..st.s], st.parts[from..Filled(st)], st.p)
    ensures Step(str, st).Go?
    ensures var next := Step(str, st).st;
            next.s == st.s + 1 && next.d == st.d && next.p == st.p + 1 && next.coloncolon == st.coloncolon &&
            Partial(str[at..next.s], next.parts[from..Filled(next)], next.p) && next.parts[..st.d] == st.parts[..st.d]
  {
    hide Partial;
    DigitBound(str[at..st.s], st, from);
    DigitStored(st, HexDigit(str[st.s]), from);
    PartialDigit(str[at..st.s], st.parts[from..Filled(st)], st.p, str[st.s]);
    assert str[at..st.s + 1] == str[at..st.s] + [str[st.s]];
  }

  lemma DigitReached(str: string, st: State)
    requires Reached(str, st) && st.s < |str| && HexDigit(str[st.s]) >= 0 && st.p < 4 && st.d < 8
    ensures Step(str, st).Go? && Reached(str, Step(str, st).st)
  {
    hide Partial, Part;
    if st.coloncolon < 0 {
      assert str[0..st.s] == str[..st.s] && st.parts[0..Filled(st)] == st.parts[..Filled(st)];
      DigitPartial(str, st, 0, 0);
      var next := Step(str, st).st;
      assert str[0..next.s] == str[..next.s] && next.parts[0..Filled(next)] == next.parts[..Filled(next)];
    } else {
      var n: nat :| SeenAt(str, st, n);
      var cc := st.coloncolon;
      DigitPartial(str, st, n + 2, cc + 1);
      var next := Step(str, st).st;
      assert next.parts[..cc] == next.parts[..st.d][..cc] == st.parts[..st.d][..cc] == st.parts[..cc];
      assert next.parts[cc] == next.parts[..st.d][cc] == st.parts[..st.d][cc];
      assert SeenAt(str, next, n);
    }
  }

  lemma ColonGo(str: string, st: State)
    requires Good(st) && st.s + 1 < |str| && str[st.s] == ':' && st.d != 7 && st.p > 0
    requires HexDigit(str[st.s + 1]) >= 0
    ensures st.d < 7 && Step(str, st) == Go(State(st.s + 1, st.d + 1, 0, st.coloncolon, st.parts))
  {
  }

  lemma ColonReached(str: string, st: State)
    requires Reached(str, st) && st.s + 1 < |str| && str[st.s] == ':' && st.d != 7 && st.p > 0
    requires HexDigit(str[st.s + 1]) >= 0
    ensures Step(str, st).Go? && Reached(str, Step(str, st).st)
  {
    ColonGo(str, st);
    hide Part, Partial, Ends, Read, Step, DoubleAt;
    var next := State(st.s + 1, st.d + 1, 0, st.coloncolon, st.parts);
    if st.coloncolon < 0 {
      PartialEnds(str[..st.s], st.parts[..Filled(st)], st.p);
      assert str[..st.s + 1] == str[..st.s] + ":";
    } else {
      var n: nat :| SeenAt(str, st, n);
      ColonSeen(str, st, n);
      hide SeenAt;
      assert SeenAt(str, next, n);
    }
  }

  lemma ColonSeen(str: string, st: State, n: nat)
    requires Good(st) && st.d < 7 && st.p > 0 && 0 <= st.coloncolon < Filled(st) <= 8
    requires st.s < |str| && str[st.s] == ':' && SeenAt(str, st, n)
    ensures SeenAt(str, State(st.s + 1, st.d + 1, 0, st.coloncolon, st.parts), n)
  {
    hide Part, Partial, DoubleAt;
    PartialEnds(str[n + 2..st.s], st.parts[st.coloncolon + 1..Filled(st)], st.p);
    assert str[n + 2..st.s + 1] == str[n + 2..st.s] + ":";
  }

  lemma PartialEnds(text: string, vals: seq<nat>, p: nat)
    requires Partial(text, vals, p) && p > 0
    ensures Partial(text + ":", vals, 0) && Part(text, vals)
  {
    PartialColon(text, vals, p);
  }

  lemma DoubleGo(str: string, st: State)
    requires Good(st) && DoubleAt(str, st.s) && st.d != 7 && (st.p > 0 || st.d == 0) && st.coloncolon < 0
    ensures var e := Filled(st);
            0 <= e < 8 && Step(str, st) == Go(State(st.s + 2, e + 1, 0, e, st.parts[e := 0]))
  {
  }

  lemma DoubleReached(str: string, st: State)
    requires Reached(str, st) && DoubleAt(str, st.s) && st.d != 7 && (st.p > 0 || st.d == 0) && st.coloncolon < 0
    ensures Step(str, st).Go? && Reached(str, Step(str, st).st)
  {
    hide Part, Partial, Ends, Read, Step, DoubleAt, SeenAt;
    DoubleGo(str, st);
    var e := Filled(st);
    PartialPart(str[..st.s], st.parts[..e], st.p);
    var next := State(st.s + 2, e + 1, 0, e, st.parts[e := 0]);
    assert next.parts[..e] == st.parts[..e];
    SeenHere(str, next, st.s);
  }

  lemma SeenHere(str: string, st: State, n: nat)
    requires Good(st) && 0 <= st.coloncolon && st.p == 0 && st.d == st.coloncolon + 1 && n + 2 == st.s <= |str|
    requires DoubleAt(str, n) && Part(str[..n], st.parts[..st.coloncolon]) && st.parts[st.coloncolon] == 0
    ensures SeenAt(str, st, n)
  {
    hide Part, Read, Ends, DoubleAt;
    assert str[n + 2..st.s] == "" && st.parts[st.coloncolon + 1..Filled(st)] == [];
  }

  /** Groups, or nothing: a colon has a digit behind it, so it is not the last thing read. */
  lemma PartialPart(text: string, vals: seq<nat>, p: nat)
    requires Partial(text, vals, p) && (p == 0 ==> vals == [])
    ensures Part(text, vals)
  {
    hide Ends;
    if p > 0 {
      PartialColon(text, vals, p);
    }
  }

  // ----- Where the scanner stops

  /** The scanner stopped in a state it reached, or one group further because of a colon that
      nothing follows. */
  ghost predicate Ended(str: string, end: State) {
    || (Reached(str, end) && (end.s < |str| ==> Step(str, end) == Halt(end)))
    || (end.d > 0 && end.s < |str| && Reached(str, end.(d := end.d - 1))
        && Step(str, end.(d := end.d - 1)) == Halt(end))
  }

  lemma {:induction false} ScanEnds(str: string, st: State)
    requires Reached(str, st)
    ensures Scan(str, st).Spill? ==> Seven(str)
    ensures Scan(str, st).Halt? ==> Ended(str, Scan(str, st).st)
    decreases |str| - st.s
  {
    hide Scan, Seven, Ended, Reached;
    assert Good(st) && st.s <= |str| by {
      ReachedGood(str, st);
    }
    ScanNext(str, st);
    if st.s < |str| && Step(str, st).Go? {
      StepReached(str, st);
      ScanEnds(str, Step(str, st).st);
    } else {
      StepStops(str, st);
    }
  }

  lemma ReachedGood(str: string, st: State)
    requires Reached(str, st)
    ensures Good(st) && st.s <= |str|
  {
  }

  lemma StepReached(str: string, st: State)
    requires Reached(str, st) && st.s < |str| && Step(str, st).Go?
    ensures Reached(str, Step(str, st).st)
  {
    hide Partial, SeenAt;
    if HexDigit(str[st.s]) >= 0 {
      DigitReached(str, st);
    } else if str[st.s + 1] == ':' && st.coloncolon < 0 {
      DoubleReached(str, st);
    } else {
      ColonReached(str, st);
    }
  }

  lemma StepStops(str: string, st: State)
    requires Reached(str, st) && (st.s < |str| ==> !Step(str, st).Go?)
    ensures st.s == |str| ==> Ended(str, st)
    ensures st.s < |str| && Step(str, st).Halt? ==> Ended(str, Step(str, st).st)
    ensures st.s < |str| && Step(str, st).Spill? ==> Seven(str)
  {
    ReachedGood(str, st);
    hide Reached, Seven;
    if st.s < |str| && Step(str, st).Spill? {
      SpillSeven(str, st);
    }
  }

  lemma SpillSeven(str: string, st: State)
    requires Reached(str, st) && st.s < |str| && HexDigit(str[st.s]) >= 0 && st.d == 8
    ensures Seven(str)
  {
    hide Read, Ends;
    var n: nat :| SeenAt(str, st, n);
    assert st.parts[8..8] == [] && |str[n + 2..st.s]| == 0;
    assert |st.parts[..7]| == 7;
    assert Groups(str[..n], 7);
    assert SevenAt(str, n);
  }

  /** The state in which the suffix goes to a ninth group. */
  lemma FinishSpills(str: string, end: State, query: string -> Option<Address4>)
    requires Good(end) && end.s <= |str|
    ensures Finish(str, end, query) == Spilled <==>
      end.p == 0 && end.d == 7 && end.coloncolon == 6 && end.s < |str| && MaybeSuffix(str, end.s, query).Some?
  {
    hide MaybeSuffix;
  }

  lemma EndSix(str: string, end: State, query: string -> Option<Address4>)
    requires Ended(str, end) && Good(end) && end.s <= |str|
    requires Finish(str, end, query) == Spilled
    ensures Six(str, query)
  {
    hide Finish, Parse4, LastColon, Read, Ends;
    FinishSpills(str, end, query);
    assert Reached(str, end);
    var n: nat :| SeenAt(str, end, n);
    assert end.parts[7..7] == [] && |str[n + 2..end.s]| == 0;
    assert |end.parts[..6]| == 6;
    assert Groups(str[..n], 6);
    SuffixColon(str, n);
    assert SixAt(str, n, query);
  }

  lemma SuffixColon(str: string, n: nat)
    requires n + 2 < |str| && DoubleAt(str, n)
    ensures LastColon(str, n + 2) == if str[n + 2] == ':' then n + 2 else n + 1
  {
    if str[n + 2] != ':' {
      LastColonAt(str, n + 1, n + 2);
    }
  }

  // ----- Scanning a text of a given form

  /** The state after groups `vals` in `length` characters, the last of `p` digits. */
  function Past(st: State, length: nat, vals: seq<nat>, p: nat): State
    requires Good(st) && vals != [] && st.d + |vals| <= 8
  {
    State(st.s + length, st.d + |vals| - 1, p, st.coloncolon, st.parts[..st.d] + vals + st.parts[st.d + |vals|..])
  }

  lemma PastGood(st: State, length: nat, vals: seq<nat>, p: nat)
    requires Good(st) && vals != [] && st.d + |vals| <= 8 && 1 <= p <= 4
    ensures Good(Past(st, length, vals, p))
  {
  }

  /** One run is read with its value. */
  lemma ScanRun(pre: string, run: string, post: string, st: State)
    requires Good(st) && st.d < 8 && st.p == 0 && st.s == |pre|
    requires AllHex(run) && 1 <= |run| <= 4
    ensures var next := State(st.s + |run|, st.d, |run|, st.coloncolon, st.parts[st.d := HexValue(0, run)]);
            Good(next) && Scan(pre + run + post, st) == Scan(pre + run + post, next)
  {
    hide Scan, HexValue;
    ScanDigits(pre, run, post, st);
  }

  lemma EndsParts(text: string, vals: seq<nat>, p: nat)
    requires Ends(text, vals, p)
    ensures vals != [] && 1 <= p <= 4 && p <= |text|
    ensures var run := text[|text| - p..]; AllHex(run) && |run| == p && HexValue(0, run) == vals[|vals| - 1]
    ensures |vals| == 1 ==> p == |text|
    ensures |vals| > 1 ==> p < |text| && text[|text| - p - 1] == ':' && Read(text[..|text| - p - 1], vals[..|vals| - 1])
  {
  }

  /** Groups from position `|pre|` on are read with their values. */
  lemma {:induction false} ScanRead(pre: string, text: string, post: string, vals: seq<nat>, st: State) returns (p: nat)
    requires Read(text, vals) && Good(st) && st.d + |vals| <= 8 && st.p == 0 && st.s == |pre|
    ensures 1 <= p <= 4 && vals != [] && Good(Past(st, |text|, vals, p))
    ensures Scan(pre + text + post, st) == Scan(pre + text + post, Past(st, |text|, vals, p))
    decreases |vals|, 1
  {
    hide Scan, Ends, HexValue, AllHex, Step;
    p :| 1 <= p <= 4 && Ends(text, vals, p);
    EndsParts(text, vals, p);
    PastGood(st, |text|, vals, p);
    var last, before := |vals| - 1, |text| - p;
    var run := text[before..];
    if last == 0 {
      assert run == text;
      ScanRun(pre, text, post, st);
      assert st.parts[st.d := vals[0]] == Past(st, |text|, vals, p).parts;
    } else {
      var q, mid := ScanFront(pre, text, post, vals, st, p);
      var next := State(mid.s + 1, mid.d + 1, 0, mid.coloncolon, mid.parts);
      CutText(pre, text, post, before);
      ScanRun(pre + text[..before - 1] + ":", run, post, next);
      PastSnoc(st, vals, mid, next, |text|, p);
    }
  }

  /** All groups but the last, and the colon behind them. */
  lemma {:induction false} ScanFront(pre: string, text: string, post: string, vals: seq<nat>, st: State, p: nat)
    returns (q: nat, mid: State)
    requires Ends(text, vals, p) && |vals| > 1 && Good(st) && st.d + |vals| <= 8 && st.p == 0 && st.s == |pre|
    ensures 1 <= q <= 4 && mid == Past(st, |text| - p - 1, vals[..|vals| - 1], q) && Good(mid)
    ensures var next := State(mid.s + 1, mid.d + 1, 0, mid.coloncolon, mid.parts);
            Good(next) && Scan(pre + text + post, st) == Scan(pre + text + post, next)
    decreases |vals|, 0
  {
    EndsParts(text, vals, p);
    hide Scan, Ends, HexValue, Step, Read;
    var before := |text| - p;
    var front, run := text[..before - 1], text[before..];
    CutText(pre, text, post, before);
    q := ScanRead(pre, front, ":" + (run + post), vals[..|vals| - 1], st);
    mid := Past(st, |front|, vals[..|vals| - 1], q);
    assert HexDigit(run[0]) >= 0;
    ColonStep(pre + text + post, mid);
  }

  lemma CutText(pre: string, text: string, post: string, before: nat)
    requires 0 < before < |text| && text[before - 1] == ':'
    ensures var front, run, str := text[..before - 1], text[before..], pre + text + post;
            && str == pre + front + (":" + (run + post))
            && str == (pre + front + ":") + run + post
            && str[|pre| + before - 1] == ':' && str[|pre| + before] == run[0] && |pre| + before < |str|
  {
    var front, run := text[..before - 1], text[before..];
    assert text == front + ":" + run;
    SplitText(pre, front, run, post);
  }

  lemma PastSnoc(st: State, vals: seq<nat>, mid: State, next: State, length: nat, p: nat)
    requires Good(st) && |vals| > 1 && st.d + |vals| <= 8 && p <= length
    requires |mid.parts| == 8 && mid.parts == st.parts[..st.d] + vals[..|vals| - 1] + st.parts[st.d + |vals| - 1..]
    requires next == State(st.s + length - p, st.d + |vals| - 1, 0, st.coloncolon, mid.parts)
    ensures State(next.s + p, next.d, p, next.coloncolon, next.parts[next.d := vals[|vals| - 1]])
        == Past(st, length, vals, p)
  {
    var now := next.parts[next.d := vals[|vals| - 1]];
    assert now == Past(st, length, vals, p).parts;
  }

  /** The scanner behind `::`, with `u` read before it. */
  lemma ScanShort(str: string, n: nat, u: seq<nat>) returns (st: State)
    requires DoubleAt(str, n) && Part(str[..n], u) && |u| <= 7
    ensures Good(st) && st.s == n + 2 && st.d == |u| + 1 && st.p == 0 && st.coloncolon == |u|
    ensures st.parts[..|u| + 1] == u + [0]
    ensures Scan(str, Start()) == Scan(str, st)
  {
    hide Scan, Read;
    var before := Start();
    if u == [] {
      assert n == |str[..n]| == 0;
    } else {
      assert "" + str[..n] + str[n..] == str;
      var p := ScanRead("", str[..n], str[n..], u, Start());
      before := Past(Start(), n, u, p);
    }
    DoubleColon(str, before);
    st := State(n + 2, |u| + 1, 0, |u|, before.parts[|u| := 0]);
    assert st.parts[..|u| + 1] == before.parts[..|u|] + [0];
  }

  // ----- The write behind the eighth group

  lemma SevenSpills(str: string, n: nat, query: string -> Option<Address4>)
    requires SevenAt(str, n)
    ensures Parsed(str, query) == Spilled
  {
    hide Scan, Read, Finish;
    var vals: seq<nat> :| |vals| == 7 && Read(str[..n], vals);
    var st := ScanShort(str, n, vals);
    ScanNext(str, st);
  }

  lemma SixSpills(str: string, n: nat, query: string -> Option<Address4>)
    requires SixAt(str, n, query)
    ensures Parsed(str, query) == Spilled
  {
    hide Scan, Read, Finish, Parse4, LastColon;
    var vals: seq<nat> :| |vals| == 6 && Read(str[..n], vals);
    var st := ScanShort(str, n, vals);
    ScanNext(str, st);
    SuffixColon(str, n);
    FinishSpills(str, st, query);
  }

  /** The parser writes behind its groups exactly on these texts. */
  lemma SpillsExactly(str: string, query: string -> Option<Address4>)
    ensures Parsed(str, query) == Spilled <==> Seven(str) || Six(str, query)
  {
    hide Scan, SevenAt, SixAt, Finish, Ended, Reached;
    if Seven(str) {
      var n: nat :| SevenAt(str, n);
      SevenSpills(str, n, query);
    }
    if Six(str, query) {
      var n: nat :| SixAt(str, n, query);
      SixSpills(str, n, query);
    }
    StartReached(str);
    ScanEnds(str, Start());
    var r := Scan(str, Start());
    if r.Halt? && Finish(str, r.st, query) == Spilled {
      EndSix(str, r.st, query);
    }
  }

  // ----- The texts accepted

  lemma PlainAccepted(str: string, a: seq<nat>, query: string -> Option<Address4>)
    requires |a| == 8 && Read(str, a)
    ensures Parsed(str, query) == Stopped(|str|, a)
  {
    hide Scan, Read, MaybeSuffix, HexDigit;
    assert "" + str + "" == str;
    var p := ScanRead("", str, "", a, Start());
    var st := Past(Start(), |str|, a, p);
    assert st.parts == a;
    ScanNext(str, st);
  }

  lemma ShortAccepted(str: string, n: nat, u: seq<nat>, v: seq<nat>, query: string -> Option<Address4>)
    requires ShortAt(str, n, u, v)
    ensures Parsed(str, query) == Stopped(|str|, u + Zeros(8 - |u| - |v|) + v)
  {
    hide Scan, Read, MaybeSuffix, Expand;
    var k := |u|;
    var st := ScanShort(str, n, u);
    var end := st;
    if v != [] {
      assert str[..n + 2] + str[n + 2..] + "" == str;
      var p := ScanRead(str[..n + 2], str[n + 2..], "", v, st);
      end := Past(st, |str| - (n + 2), v, p);
      assert end.parts[k + 1..k + 1 + |v|] == v;
      assert end.parts[..k + 1] == st.parts[..k + 1];
    }
    ScanNext(str, end);
    ExpandShort(end.parts, u, v, |str|);
  }

  lemma ExpandShort(parts: seq<nat>, u: seq<nat>, v: seq<nat>, s: nat)
    requires |parts| == 8 && |u| + |v| <= 7
    requires parts[..|u| + 1] == u + [0] && parts[|u| + 1..|u| + 1 + |v|] == v
    ensures Expand(s, |u| + |v|, |u|, parts) == Stopped(s, u + Zeros(8 - |u| - |v|) + v)
  {
    var k, d := |u|, |u| + |v|;
    var a := u + Zeros(8 - k - |v|) + v;
    if d == 7 {
      assert parts == parts[..k + 1] + parts[k + 1..k + 1 + |v|];
      assert parts == a;
    } else {
      assert parts[..k + 1] + Zeros(7 - d) + parts[k + 1..d + 1] == u + [0] + Zeros(7 - d) + v;
      assert [0] + Zeros(7 - d) == Zeros(8 - d);
    }
  }

  /** Every text of an address is read whole, with its value. */
  lemma WholeAccepted(str: string, a: seq<nat>, query: string -> Option<Address4>)
    requires Whole(str, a)
    ensures Parsed(str, query) == Stopped(|str|, a)
  {
    hide Read, Parsed;
    if |a| == 8 && Read(str, a) {
      PlainAccepted(str, a, query);
    } else {
      var n: nat, u, v :| ShortAt(str, n, u, v) && a == u + Zeros(8 - |u| - |v|) + v;
      ShortAccepted(str, n, u, v, query);
    }
  }

  lemma EndWhole(str: string, end: State)
    requires Reached(str, end) && end.s == |str| && str != ""
    ensures var d := if end.p == 0 then end.d - 1 else end.d;
            var r := Expand(end.s, d, end.coloncolon, end.parts);
            r.at == |str| ==> Whole(str, r.parts)
  {
    hide Read, Ends;
    var d := if end.p == 0 then end.d - 1 else end.d;
    if end.coloncolon < 0 {
      assert str[..|str|] == str;
      if d == 7 {
        assert end.p > 0 && end.parts[..8] == end.parts;
        PartialColon(str, end.parts, end.p);
      }
    } else {
      var n: nat :| SeenAt(str, end, n);
      EndShort(str, end, n);
    }
  }

  lemma EndShort(str: string, end: State, n: nat)
    requires Good(end) && 0 <= end.coloncolon < Filled(end) <= 8 && end.s == |str| && SeenAt(str, end, n)
    requires end.p == 0 ==> end.d == end.coloncolon + 1
    ensures var d := if end.p == 0 then end.d - 1 else end.d;
            var r := Expand(end.s, d, end.coloncolon, end.parts);
            r.at == |str| && Whole(str, r.parts)
  {
    hide Read, Ends, Expand;
    var cc, f := end.coloncolon, Filled(end);
    assert str[n + 2..|str|] == str[n + 2..];
    var u, v := end.parts[..cc], end.parts[cc + 1..f];
    PartialPart(str[n + 2..], v, end.p);
    hide Part, Partial;
    assert ShortAt(str, n, u, v);
    assert end.parts[..cc + 1] == u + [0];
    ExpandShort(end.parts, u, v, |str|);
  }

  lemma EndedAtEnd(str: string, end: State)
    requires Ended(str, end) && end.s == |str|
    ensures Reached(str, end)
  {
  }

  // ----- Failure

  /** The parser finds neither eight groups nor a `::`. */
  ghost predicate Fails(str: string, query: string -> Option<Address4>) {
    var r := Scan(str, Start());
    && r.Halt? && r.st.coloncolon < 0
    && var d := if r.st.p == 0 then r.st.d - 1 else r.st.d;
       d != 7 && (d == 6 && r.st.s < |str| ==> MaybeSuffix(str, r.st.s, query).None?)
  }

  /** Failure is reported by returning the beginning of the text, which is its end exactly if the
      text is empty. */
  lemma FailureIsBeginning(str: string, query: string -> Option<Address4>)
    requires Fails(str, query)
    ensures Parsed(str, query).Stopped? && Parsed(str, query).at == 0
    ensures Parsed(str, query).at == |str| <==> str == ""
  {
    hide Scan, MaybeSuffix;
  }

  /** So the empty text is accepted, as the address of all ones. */
  lemma EmptyAccepted(query: string -> Option<Address4>)
    ensures Fails("", query) && Parsed("", query) == Stopped(|""|, Start().parts)
  {
    ScanNext("", Start());
  }

  // ----- Texts that go wrong

  lemma {:induction false} JoinedRead(groups: seq<nat>)
    requires SmallGroups(groups) && groups != []
    ensures Read(Joined(groups), groups)
    decreases |groups|
  {
    hide Hex, HexValue, Joined;
    var last := |groups| - 1;
    var g := groups[last];
    assert Bound(4) == 0x1_0000;
    HexLength(g, 4);
    HexRoundTrip(g);
    JoinedSnoc(groups[..last], g);
    assert groups == groups[..last] + [g];
    var text, before := Joined(groups), |Joined(groups)| - |Hex(g)|;
    assert text[before..] == Hex(g);
    EmptyJoined();
    if last > 0 {
      JoinedRead(groups[..last]);
      assert text[..before - 1] == Joined(groups[..last]);
    }
    assert Ends(text, groups, |Hex(g)|);
  }

  /** Seven groups, `::` and a digit. */
  lemma SevenThenDigit(groups: seq<nat>, c: char, post: string, query: string -> Option<Address4>)
    requires |groups| == 7 && SmallGroups(groups) && HexDigit(c) >= 0
    ensures Parsed(Joined(groups) + "::" + [c] + post, query) == Spilled
  {
    hide Joined, Read, Parsed;
    JoinedRead(groups);
    var str, n := Joined(groups) + "::" + [c] + post, |Joined(groups)|;
    assert str[..n] == Joined(groups);
    assert SevenAt(str, n);
    SevenSpills(str, n, query);
  }

  /** Six groups, `::` and a name that is known. */
  lemma SixThenName(groups: seq<nat>, query: string -> Option<Address4>)
    requires |groups| == 6 && SmallGroups(groups) && query("x").Some?
    ensures Parsed(Joined(groups) + "::x", query) == Spilled
  {
    hide Joined, Read, Parsed;
    JoinedRead(groups);
    var str, n := Joined(groups) + "::x", |Joined(groups)|;
    assert str[..n] == Joined(groups) && str[n + 2..] == "x";
    assert SixAt(str, n, query);
    SixSpills(str, n, query);
  }

  /** Six groups, three colons and an IPv4 address, whatever the name service. */
  lemma SixThenDotted(groups: seq<nat>, b: Address4, query: string -> Option<Address4>)
    requires |groups| == 6 && SmallGroups(groups) && forall i :: 0 <= i < 4 ==> b[i] < 256
    ensures Parsed(Joined(groups) + ":::" + Text4(b), query) == Spilled
  {
    hide Joined, Read, Parsed, Parse4, Text4;
    JoinedRead(groups);
    RoundTrip4(b, query);
    var str, n := Joined(groups) + ":::" + Text4(b), |Joined(groups)|;
    assert str[..n] == Joined(groups) && str[n + 3..] == Text4(b);
    assert SixAt(str, n, query);
    SixSpills(str, n, query);
  }

  // ----- An address as one writes it

  lemma ExampleGroups()
    ensures AllHex("2001") && HexValue(0, "2001") == 0x2001 && AllHex("DB8") && HexValue(0, "DB8") == 0xdb8
    ensures AllHex("1") && HexValue(0, "1") == 1
  {
    FourHexDigits("2001");
    assert "DB8"[1..] == "B8" && "B8"[1..] == "8" && "8"[1..] == "";
    assert HexValue(0xdb8, "") == 0xdb8;
    assert HexValue(0xdb, "8") == 0xdb8;
    assert HexValue(0xd, "B8") == 0xdb8;
    assert HexValue(1, "") == 1;
    assert "1"[1..] == "";
  }

  lemma ExampleReads()
    ensures Read("2001:DB8", [0x2001, 0xdb8]) && Read("1", [1])
  {
    ExampleGroups();
    hide HexValue, AllHex, Read;
    OneGroup("2001", 0x2001);
    OneGroup("1", 1);
    NextGroup("2001", [0x2001], "DB8", 0xdb8);
    assert "2001" + ":" + "DB8" == "2001:DB8" && [0x2001] + [0xdb8] == [0x2001, 0xdb8];
  }

  lemma OneGroup(text: string, v: nat)
    requires 1 <= |text| <= 4 && AllHex(text) && HexValue(0, text) == v
    ensures Read(text, [v])
  {
    hide HexValue, AllHex;
    assert text[0..] == text;
    assert Ends(text, [v], |text|);
  }

  lemma NextGroup(text: string, vals: seq<nat>, more: string, v: nat)
    requires Read(text, vals) && vals != [] && 1 <= |more| <= 4 && AllHex(more) && HexValue(0, more) == v
    ensures Read(text + ":" + more, vals + [v])
  {
    hide HexValue, AllHex;
    var all, before := text + ":" + more, |text| + 1;
    assert all[before..] == more && all[..before - 1] == text && (vals + [v])[..|vals|] == vals;
    assert Ends(all, vals + [v], |more|);
  }

  /** `2001:DB8::1`, whatever the name service. */
  lemma Example(query: string -> Option<Address4>)
    ensures Parsed("2001:DB8::1", query) == Stopped(11, [0x2001, 0xdb8, 0, 0, 0, 0, 0, 1])
  {
    hide Read, Parsed;
    ExampleReads();
    var str, u, v: seq<nat> := "2001:DB8::1", [0x2001, 0xdb8], [1];
    assert str[..8] == "2001:DB8" && str[10..] == "1";
    assert ShortAt(str, 8, u, v);
    ShortAccepted(str, 8, u, v, query);
    assert u + Zeros(5) + v == [0x2001, 0xdb8, 0, 0, 0, 0, 0, 1];
  }
}
