/** Text of IPv6 addresses: hexadecimal groups, one compressed run of zeros, and an IPv4 suffix.
    An address is its eight 16-bit groups in order; group values are meant, so the swaps between
    host and network order do not appear. */
module IP6Text {
  import opened IP4Text

  ghost predicate IsAddress(a: seq<nat>) {
    |a| == 8 && forall i :: 0 <= i < 8 ==> a[i] < 0x1_0000
  }

  // ----- Printing

  function HexChar(n: nat): (c: char)
    requires n < 16
    ensures HexDigit(c) == n
  {
    if n < 10 then ('0' as int + n) as char else ('a' as int + n - 10) as char
  }

  /** The value of a hexadecimal digit, or -1. */
  function HexDigit(c: char): (v: int)
    ensures -1 <= v < 16
  {
    if '0' <= c <= '9' then c as int - '0' as int
    else if 'a' <= c <= 'f' then c as int - 'a' as int + 10
    else if 'A' <= c <= 'F' then c as int - 'A' as int + 10
    else -1
  }

  predicate AllHex(s: string) {
    forall i :: 0 <= i < |s| ==> HexDigit(s[i]) >= 0
  }

  /** `%x` of a non-negative number. */
  function Hex(n: nat): (s: string)
    ensures s != "" && AllHex(s)
  {
    if n < 16 then [HexChar(n)] else Hex(n / 16) + [HexChar(n % 16)]
  }

  /** Groups with a colon between them. */
  function Joined(groups: seq<nat>): string {
    if groups == [] then ""
    else if |groups| == 1 then Hex(groups[0])
    else Hex(groups[0]) + ":" + Joined(groups[1..])
  }

  /** Groups `[i, i + n)` are zero. */
  predicate ZeroRun(a: seq<nat>, i: int, n: int) {
    0 <= i && 0 <= n && i + n <= |a| && forall k :: i <= k < i + n ==> a[k] == 0
  }

  /** Sections 4.2.2 and 4.2.3 of RFC 5952: a longest run of zeros, the first of its length. */
  ghost predicate FirstLongest(a: seq<nat>, zp: nat, zl: nat) {
    && ZeroRun(a, zp, zl)
    && forall i, n :: ZeroRun(a, i, n) && n > 0 ==> n < zl || (n == zl && i >= zp)
  }

  function Compressed(a: seq<nat>, zp: nat, zl: nat): string
    requires zp + zl <= |a|
  {
    if zl > 1 then Joined(a[..zp]) + "::" + Joined(a[zp + zl..]) else Joined(a)
  }

  function LastBytes(a: seq<nat>): Address4
    requires |a| == 8
  {
    [a[6] / 256, a[6] % 256, a[7] / 256, a[7] % 256]
  }

  /** The text of an address: RFC 5952, with dotted forms for IPv4-compatible and IPv4-mapped
      addresses. */
  ghost predicate Unparsed(a: seq<nat>, text: string)
    requires |a| == 8
  {
    if ZeroRun(a, 0, 8) then text == "::"
    else if ZeroRun(a, 0, 6) then text == "::" + Text4(LastBytes(a))
    else if ZeroRun(a, 0, 5) && a[5] == 0xFFFF then text == "::ffff:" + Text4(LastBytes(a))
    else exists zp, zl :: FirstLongest(a, zp, zl) && text == Compressed(a, zp, zl)
  }

  // ----- The printing loops

  /** The best run among those that end by `p`, and the run that is still going on. */
  ghost predicate BestSoFar(a: seq<nat>, p: nat, zp: nat, zl: nat, lzp: nat) {
    && zp + zl <= p && ZeroRun(a, zp, zl)
    && lzp <= p <= |a| && ZeroRun(a, lzp, p - lzp) && (lzp > 0 ==> a[lzp - 1] != 0)
    && forall i, n :: ZeroRun(a, i, n) && n > 0 && i + n <= p ==> n < zl || (n == zl && i >= zp)
  }

  /** A run that ends at `p + 1` starts in the run still going on. */
  lemma RunStart(a: seq<nat>, p: nat, zp: nat, zl: nat, lzp: nat, i: nat, n: nat)
    requires BestSoFar(a, p, zp, zl, lzp) && p < |a|
    requires ZeroRun(a, i, n) && n > 0 && i + n == p + 1
    ensures i >= lzp && a[p] == 0
  {
    assert a[p] == 0;
    if lzp > 0 {
      assert a[lzp - 1] != 0;
    }
  }

  method LongestRun(a: seq<nat>) returns (zp: nat, zl: nat)
    requires |a| == 8
    ensures FirstLongest(a, zp, zl)
  {
    zp, zl := 0, 0;
    var lzp := 0;
    for p := 0 to 8
      invariant BestSoFar(a, p, zp, zl, lzp)
    {
      forall i, n | ZeroRun(a, i, n) && n > 0 && i + n == p + 1 ensures i >= lzp && a[p] == 0 {
        RunStart(a, p, zp, zl, lzp, i, n);
      }
      if a[p] != 0 {
        lzp := p + 1;
      } else if p + 1 - lzp > zl {
        zp := lzp;
        zl := p + 1 - lzp;
      }
    }
  }

  /** Groups with a colon before each. */
  function Led(groups: seq<nat>): string {
    if groups == [] then "" else ":" + Joined(groups)
  }

  lemma {:induction false} JoinedSnoc(groups: seq<nat>, g: nat)
    ensures Joined(groups + [g]) == Joined(groups) + (if groups == [] then "" else ":") + Hex(g)
    decreases |groups|
  {
    hide Hex;
    if groups == [] {
      assert groups + [g] == [g];
    } else {
      assert (groups + [g])[1..] == groups[1..] + [g];
      JoinedSnoc(groups[1..], g);
    }
  }

  lemma JoinedNext(a: seq<nat>, p: nat)
    requires p < |a|
    ensures Joined(a[..p + 1]) == Joined(a[..p]) + (if p == 0 then "" else ":") + Hex(a[p])
  {
    hide Joined;
    assert a[..p + 1] == a[..p] + [a[p]];
    JoinedSnoc(a[..p], a[p]);
  }

  lemma LedSnoc(groups: seq<nat>, g: nat)
    ensures Led(groups + [g]) == Led(groups) + ":" + Hex(g)
  {
    EmptyJoined();
    hide Joined, Hex;
    JoinedSnoc(groups, g);
    var j := Joined(groups);
    if groups != [] {
      assert ":" + (j + ":" + Hex(g)) == (":" + j) + ":" + Hex(g);
    }
  }

  lemma LedNext(a: seq<nat>, from: nat, p: nat)
    requires from <= p < |a|
    ensures Led(a[from..p + 1]) == Led(a[from..p]) + ":" + Hex(a[p])
  {
    hide *;
    assert a[from..p + 1] == a[from..p] + [a[p]];
    LedSnoc(a[from..p], a[p]);
  }

  /** What has been written when the second loop is at group `p`. */
  ghost predicate Written(a: seq<nat>, zp: nat, zl: nat, p: nat, text: string)
    requires zp + zl <= |a| && p <= |a|
  {
    if zl > 1 && p > zp then
      p >= zp + zl && text == Joined(a[..zp]) + (if zp + zl == |a| then "::" else ":" + Led(a[zp + zl..p]))
    else text == Joined(a[..p])
  }

  lemma WrittenGroup(a: seq<nat>, zp: nat, zl: nat, p: nat, text: string)
    requires zp + zl <= |a| && p < |a| && Written(a, zp, zl, p, text)
    requires !(p == zp && zl > 1)
    ensures Written(a, zp, zl, p + 1, text + (if p == 0 then "" else ":") + Hex(a[p]))
  {
    hide Joined, Hex, Led;
    if zl > 1 && p > zp {
      LedNext(a, zp + zl, p);
    } else {
      JoinedNext(a, p);
    }
  }

  lemma WrittenRun(a: seq<nat>, zp: nat, zl: nat, text: string)
    requires zp + zl <= |a| && Written(a, zp, zl, zp, text) && zl > 1
    ensures Written(a, zp, zl, zp + zl, text + if zp + zl == |a| then "::" else ":")
  {
  }

  lemma WrittenAll(a: seq<nat>, zp: nat, zl: nat, text: string)
    requires zp + zl <= |a| && Written(a, zp, zl, |a|, text)
    ensures text == Compressed(a, zp, zl)
  {
    assert Joined([]) == "";
    hide Joined, Hex;
    assert a[..|a|] == a && a[zp + zl..|a|] == a[zp + zl..];
  }

  method Unparse(a: seq<nat>) returns (text: string)
    requires IsAddress(a)
    ensures Unparsed(a, text)
  {
    hide FirstLongest, Compressed, Written, Joined, Hex, Text4;
    if a[0] == 0 && a[1] == 0 && a[2] == 0 && a[3] == 0 {
      if a[4] == 0 && a[5] == 0 && a[6] == 0 && a[7] == 0 {
        return "::";
      } else if a[4] == 0 && a[5] == 0 {
        return "::" + Text4(LastBytes(a));
      } else if a[4] == 0 && a[5] == 0xFFFF {
        return "::ffff:" + Text4(LastBytes(a));
      }
    }
    var zp, zl := LongestRun(a);
    RunFits(a, zp, zl);
    text := "";
    var p := 0;
    WrittenNothing(a, zp, zl);
    while p < 8
      invariant 0 <= p <= 8 && Written(a, zp, zl, p, text)
    {
      if p == zp && zl > 1 {
        WrittenRun(a, zp, zl, text);
        p := p + (zl - 1);
        text := text + if p == 7 then "::" else ":";
      } else {
        WrittenGroup(a, zp, zl, p, text);
        text := text + (if p == 0 then "" else ":") + Hex(a[p]);
      }
      p := p + 1;
    }
    WrittenAll(a, zp, zl, text);
  }

  lemma RunFits(a: seq<nat>, zp: nat, zl: nat)
    requires FirstLongest(a, zp, zl)
    ensures zp + zl <= |a|
  {
  }

  lemma WrittenNothing(a: seq<nat>, zp: nat, zl: nat)
    requires zp + zl <= |a|
    ensures Written(a, zp, zl, 0, "")
  {
  }

  // ----- Parsing

  /** The scanner's variables: position, current group, digits in it, and the group where `::`
      was seen. */
  datatype State = State(s: nat, d: int, p: int, coloncolon: int, parts: seq<nat>)

  /** `Spill` is where the source writes behind the eighth group. */
  datatype Outcome = Go(st: State) | Halt(st: State) | Spill

  datatype Result = Spilled | Stopped(at: nat, parts: seq<nat>)

  predicate Good(st: State) {
    && |st.parts| == 8 && 0 <= st.d <= 8 && 0 <= st.p <= 4 && -1 <= st.coloncolon <= 7
    && (st.coloncolon >= 0 ==> st.d > st.coloncolon)
    && (st.d == 8 ==> st.p == 0 && st.coloncolon == 7)
  }

  function Start(): State {
    State(0, 0, 0, -1, [0xFFFF, 0xFFFF, 0xFFFF, 0xFFFF, 0xFFFF, 0xFFFF, 0xFFFF, 0xFFFF])
  }

  /** One turn of the scanning loop.  Only a digit in a ninth group can spill, and that takes a
      `::` behind seven groups. */
  function Step(str: string, st: State): (r: Outcome)
    requires Good(st) && st.s < |str|
    ensures !r.Spill? ==> Good(r.st) && r.st.s <= |str|
    ensures r.Go? ==> r.st.s > st.s
    ensures r.Spill? <==> HexDigit(str[st.s]) >= 0 && st.d == 8
  {
    var c := str[st.s];
    if HexDigit(c) >= 0 then
      if st.p == 4 then Halt(st)
      else if st.d > 7 then Spill
      else Go(State(st.s + 1, st.d, st.p + 1, st.coloncolon,
                    st.parts[st.d := ((if st.p != 0 then st.parts[st.d] * 16 else 0) + HexDigit(c)) % 0x1_0000]))
    else if c == ':' && st.s + 1 != |str| && st.d != 7 && (st.p != 0 || st.d == 0) then
      if str[st.s + 1] == ':' && st.coloncolon < 0 then
        var e := if st.p != 0 then st.d + 1 else st.d;
        Go(State(st.s + 2, e + 1, 0, e, st.parts[e := 0]))
      else if HexDigit(str[st.s + 1]) < 0 || st.p == 0 then Halt(st.(d := st.d + 1))
      else Go(State(st.s + 1, st.d + 1, 0, st.coloncolon, st.parts))
    else Halt(st)
  }

  /** The whole scanning loop. */
  function Scan(str: string, st: State): (r: Outcome)
    requires Good(st) && st.s <= |str|
    ensures r.Spill? || (r.Halt? && Good(r.st) && r.st.s <= |str|)
    decreases |str| - st.s
  {
    if st.s == |str| then Halt(st) else
      var next := Step(str, st);
      if next.Go? then Scan(str, next.st) else next
  }

  /** Backwards from `s` to a colon, or to the beginning. */
  function LastColon(str: string, s: nat): (t: nat)
    requires s < |str|
    ensures t <= s
  {
    if s == 0 || str[s] == ':' then s else LastColon(str, s - 1)
  }

  function Zeros(n: nat): (z: seq<nat>)
    ensures |z| == n
  {
    seq(n, _ => 0)
  }

  /** Spreading the groups behind `::` to the end. */
  function Expand(s: nat, d: int, coloncolon: int, parts: seq<nat>): Result
    requires |parts| == 8 && d <= 7 && (coloncolon >= 0 ==> coloncolon <= d)
  {
    if d != 7 && coloncolon < 0 then Stopped(0, parts)
    else if coloncolon >= 0 && d != 7 then
      Stopped(s, parts[..coloncolon + 1] + Zeros(7 - d) + parts[coloncolon + 1..d + 1])
    else Stopped(s, parts)
  }

  function MaybeSuffix(str: string, s: nat, query: string -> Option<Address4>): Option<Address4>
    requires s < |str|
  {
    var t := LastColon(str, s);
    if t == 0 then None else Parse4(str[t + 1..], query)
  }

  /** What follows the scanning loop. */
  function Finish(str: string, st: State, query: string -> Option<Address4>): Result
    requires Good(st) && st.s <= |str|
  {
    var d := if st.p == 0 then st.d - 1 else st.d;
    if (d == 6 || (d < 6 && st.coloncolon >= 0)) && st.s != |str| then
      match MaybeSuffix(str, st.s, query)
      case Some(v) =>
        var dd := if d == st.coloncolon then d + 1 else d;
        if dd > 6 then Spilled
        else Expand(|str|, dd + 1, st.coloncolon, st.parts[dd := v[0] * 256 + v[1]][dd + 1 := v[2] * 256 + v[3]])
      case None => Expand(st.s, d, st.coloncolon, st.parts)
    else Expand(st.s, d, st.coloncolon, st.parts)
  }

  /** `IP6AddressArg::basic_parse`. */
  function Parsed(str: string, query: string -> Option<Address4>): Result {
    match Scan(str, Start())
    case Spill => Spilled
    case Halt(st) => Finish(str, st, query)
    case Go(_) => Spilled
  }

  lemma ScanNext(str: string, st: State)
    requires Good(st) && st.s <= |str|
    ensures Scan(str, st) == if st.s == |str| then Halt(st)
                             else if Step(str, st).Go? then Scan(str, Step(str, st).st) else Step(str, st)
  {
  }

  method ScanLoop(str: string, parts: array<nat>) returns (ok: bool, s: nat, d: int, p: int, coloncolon: int)
    requires parts.Length == 8
    modifies parts
    ensures s <= |str|
    ensures Scan(str, Start()) == if ok then Halt(State(s, d, p, coloncolon, parts[..])) else Spill
  {
    hide Scan;
    forall i | 0 <= i < 8 {
      parts[i] := 0xFFFF;
    }
    d, p, coloncolon, s := 0, 0, -1, 0;
    assert parts[..] == Start().parts;
    while s != |str|
      invariant s <= |str| && Good(State(s, d, p, coloncolon, parts[..]))
      invariant Scan(str, State(s, d, p, coloncolon, parts[..])) == Scan(str, Start())
      decreases |str| - s
    {
      ghost var before := parts[..];
      ScanNext(str, State(s, d, p, coloncolon, before));
      var digit := HexDigit(str[s]);
      if digit < 0 {
        if str[s] == ':' && s + 1 != |str| && d != 7 && (p != 0 || d == 0) {
          if str[s + 1] == ':' && coloncolon < 0 {
            d := if p != 0 then d + 1 else d;
            coloncolon := d;
            parts[d] := 0;
            assert parts[..] == before[d := 0];
            s := s + 1;
          } else if HexDigit(str[s + 1]) < 0 || p == 0 {
            d := d + 1;
            break;
          }
          p := 0;
          d := d + 1;
          s := s + 1;
          continue;
        } else {
          break;
        }
      }
      if p == 4 {
        break;
      }
      if d > 7 {
        return false, s, d, p, coloncolon;
      }
      parts[d] := ((if p != 0 then parts[d] * 16 else 0) + digit) % 0x1_0000;
      assert parts[..] == before[d := parts[d]];
      p := p + 1;
      s := s + 1;
    }
    ok := true;
    if s == |str| {
      ScanNext(str, State(s, d, p, coloncolon, parts[..]));
    }
  }

  lemma Spread(before: seq<nat>, after: seq<nat>, first: nat, end: nat)
    requires |before| == |after| == 8 && first <= end <= 8
    requires forall k :: 0 <= k < first ==> after[k] == before[k]
    requires forall k :: first <= k < first + 8 - end ==> after[k] == 0
    requires forall k :: first + 8 - end <= k < 8 ==> after[k] == before[k - (8 - end)]
    ensures after == before[..first] + Zeros(8 - end) + before[first..end]
  {
  }

  /** The last part of `basic_parse`: moving the groups behind `::` to the end, zeros between. */
  method ExpandInPlace(s: nat, d: int, coloncolon: int, parts: array<nat>) returns (at: nat)
    requires parts.Length == 8 && -1 <= d <= 7 && -1 <= coloncolon && (coloncolon >= 0 ==> coloncolon <= d)
    modifies parts
    ensures Stopped(at, parts[..]) == Expand(s, d, coloncolon, old(parts[..]))
  {
    if d != 7 && coloncolon < 0 {
      return 0;
    }
    if coloncolon >= 0 && d != 7 {
      var numextra := 7 - d;
      var first := coloncolon + 1;
      forall k | 0 <= k < d - coloncolon {
        parts[first + numextra + k] := parts[first + k];
      }
      forall k | 0 <= k < numextra {
        parts[first + k] := 0;
      }
      Spread(old(parts[..]), parts[..], first, d + 1);
    }
    return s;
  }

  method BackToColon(str: string, s: nat) returns (t: nat)
    requires s < |str|
    ensures t == LastColon(str, s)
  {
    t := s;
    while t != 0 && str[t] != ':'
      invariant t <= s && LastColon(str, t) == LastColon(str, s)
    {
      t := t - 1;
    }
  }

  method BasicParse6(str: string, query: string -> Option<Address4>) returns (r: Result)
    ensures r == Parsed(str, query)
  {
    hide Scan, Expand, Parse4;
    var parts := new nat[8];
    var ok, s, d, p, coloncolon := ScanLoop(str, parts);
    if !ok {
      return Spilled;
    }
    ghost var st := State(s, d, p, coloncolon, parts[..]);
    assert Scan(str, Start()) == Halt(st) && Good(st);
    if p == 0 {
      d := d - 1;
    }
    if (d == 6 || (d < 6 && coloncolon >= 0)) && s != |str| {
      var t := BackToColon(str, s);
      if t != 0 {
        var v := Parse4(str[t + 1..], query);
        if v.Some? {
          var dd := if d == coloncolon then d + 1 else d;
          if dd > 6 {
            return Spilled;
          }
          parts[dd] := v.value[0] * 256 + v.value[1];
          parts[dd + 1] := v.value[2] * 256 + v.value[3];
          assert parts[..] == st.parts[dd := v.value[0] * 256 + v.value[1]][dd + 1 := v.value[2] * 256 + v.value[3]];
          d := dd + 1;
          s := |str|;
        }
      }
    }
    var at := ExpandInPlace(s, d, coloncolon, parts);
    return Stopped(at, parts[..]);
  }

  // ----- Round trip: digits and groups

  function HexValue(acc: nat, digits: string): nat
    decreases |digits|
  {
    if digits == "" then acc
    else HexValue(acc * 16 + if HexDigit(digits[0]) >= 0 then HexDigit(digits[0]) else 0, digits[1..])
  }

  lemma {:induction false} HexValueLast(acc: nat, digits: string, c: char)
    requires HexDigit(c) >= 0
    ensures HexValue(acc, digits + [c]) == HexValue(acc, digits) * 16 + HexDigit(c)
    decreases |digits|
  {
    if digits != "" {
      var next := acc * 16 + if HexDigit(digits[0]) >= 0 then HexDigit(digits[0]) else 0;
      assert (digits + [c])[1..] == digits[1..] + [c];
      HexValueLast(next, digits[1..], c);
    } else {
      assert digits + [c] == [c] && [c][1..] == "";
      assert HexValue(acc, [c]) == HexValue(acc * 16 + HexDigit(c), "");
    }
  }

  lemma {:induction false} HexRoundTrip(n: nat)
    ensures HexValue(0, Hex(n)) == n
  {
    if n < 16 {
      var c := HexChar(n);
      assert [c][1..] == "";
      assert HexValue(0, [c]) == HexValue(n, "");
    } else {
      HexRoundTrip(n / 16);
      HexValueLast(0, Hex(n / 16), HexChar(n % 16));
    }
  }

  lemma {:induction false} HexLength(n: nat, k: nat)
    requires n < Bound(k) && k > 0
    ensures 1 <= |Hex(n)| <= k
  {
    if n >= 16 {
      assert k > 1 && n / 16 < Bound(k - 1);
      HexLength(n / 16, k - 1);
    }
  }

  /** The state after some digits. */
  function AfterDigits(st: State, digits: string): State
    requires Good(st) && st.d < 8
  {
    if digits == "" then st else
      State(st.s + |digits|, st.d, st.p + |digits|, st.coloncolon,
            st.parts[st.d := HexValue(if st.p == 0 then 0 else st.parts[st.d], digits)])
  }

  lemma {:induction false} ScanDigits(pre: string, digits: string, post: string, st: State)
    requires Good(st) && st.d < 8 && st.s == |pre|
    requires AllHex(digits) && st.p + |digits| <= 4
    requires st.p > 0 ==> st.parts[st.d] < Bound(st.p)
    ensures Good(AfterDigits(st, digits))
    ensures Scan(pre + digits + post, st) == Scan(pre + digits + post, AfterDigits(st, digits))
    decreases |digits|
  {
    hide Scan;
    var str := pre + digits + post;
    if digits != "" {
      Regroup(pre, digits, post);
      ScanNext(str, st);
      var next := Step(str, st).st;
      DigitStep(str, st);
      ScanDigits(pre + [digits[0]], digits[1..], post, next);
      DigitThenRest(st, digits, next);
    }
  }

  function Bound(p: nat): nat {
    if p == 0 then 1 else 16 * Bound(p - 1)
  }

  lemma DigitStep(str: string, st: State)
    requires Good(st) && st.s < |str| && st.d < 8 && st.p < 4 && HexDigit(str[st.s]) >= 0
    requires st.p > 0 ==> st.parts[st.d] < Bound(st.p)
    ensures var acc := if st.p == 0 then 0 else st.parts[st.d];
            Step(str, st) == Go(State(st.s + 1, st.d, st.p + 1, st.coloncolon,
                st.parts[st.d := acc * 16 + HexDigit(str[st.s])]))
    ensures Step(str, st).st.parts[st.d] < Bound(st.p + 1)
  {
    assert Bound(1) == 16 && Bound(2) == 256 && Bound(3) == 0x1000;
  }

  lemma DigitThenRest(st: State, digits: string, next: State)
    requires Good(st) && st.d < 8 && digits != "" && HexDigit(digits[0]) >= 0 && Good(next)
    requires var acc := if st.p == 0 then 0 else st.parts[st.d];
             next == State(st.s + 1, st.d, st.p + 1, st.coloncolon, st.parts[st.d := acc * 16 + HexDigit(digits[0])])
    ensures AfterDigits(st, digits) == AfterDigits(next, digits[1..])
  {
    var acc := if st.p == 0 then 0 else st.parts[st.d];
    assert HexValue(acc, digits) == HexValue(acc * 16 + HexDigit(digits[0]), digits[1..]);
    if digits[1..] == "" {
      assert |digits| == 1;
    }
  }

  lemma ScanGroup(pre: string, g: nat, post: string, st: State)
    requires g < 0x1_0000 && Good(st) && st.d < 8 && st.p == 0 && st.s == |pre|
    ensures 1 <= |Hex(g)| <= 4
    ensures var str := pre + Hex(g) + post;
            Scan(str, st) == Scan(str, State(st.s + |Hex(g)|, st.d, |Hex(g)|, st.coloncolon, st.parts[st.d := g]))
  {
    hide Scan, Hex, HexValue;
    assert Bound(4) == 0x1_0000;
    HexLength(g, 4);
    HexRoundTrip(g);
    ScanDigits(pre, Hex(g), post, st);
  }

  lemma ColonStep(str: string, st: State)
    requires Good(st) && st.s + 1 < |str| && st.d < 7 && st.p > 0
    requires str[st.s] == ':' && HexDigit(str[st.s + 1]) >= 0
    ensures Scan(str, st) == Scan(str, State(st.s + 1, st.d + 1, 0, st.coloncolon, st.parts))
  {
    hide Scan;
    ScanNext(str, st);
  }

  lemma DoubleColon(str: string, st: State)
    requires Good(st) && st.s + 1 < |str| && st.d < 7 && (st.p > 0 || st.d == 0) && st.coloncolon < 0
    requires str[st.s] == ':' && str[st.s + 1] == ':'
    ensures var e := if st.p > 0 then st.d + 1 else st.d;
            Scan(str, st) == Scan(str, State(st.s + 2, e + 1, 0, e, st.parts[e := 0]))
  {
    hide Scan;
    ScanNext(str, st);
  }

  lemma JoinedFirst(groups: seq<nat>)
    requires groups != []
    ensures Joined(groups) != "" && HexDigit(Joined(groups)[0]) >= 0
  {
    hide Hex;
  }

  ghost predicate SmallGroups(groups: seq<nat>) {
    forall i :: 0 <= i < |groups| ==> groups[i] < 0x1_0000
  }

  /** The state after some groups with colons between them. */
  function AfterGroups(st: State, groups: seq<nat>): (r: State)
    requires Good(st) && groups != [] && st.d + |groups| <= 8
  {
    State(st.s + |Joined(groups)|, st.d + |groups| - 1, |Hex(groups[|groups| - 1])|, st.coloncolon,
          st.parts[..st.d] + groups + st.parts[st.d + |groups|..])
  }

  lemma AfterGroupsGood(st: State, groups: seq<nat>)
    requires Good(st) && groups != [] && st.d + |groups| <= 8 && SmallGroups(groups)
    ensures Good(AfterGroups(st, groups)) && AfterGroups(st, groups).p > 0
  {
    hide Hex, Joined;
    assert Bound(4) == 0x1_0000;
    HexLength(groups[|groups| - 1], 4);
  }

  lemma {:induction false} ScanJoined(pre: string, groups: seq<nat>, post: string, st: State)
    requires Good(st) && groups != [] && st.d + |groups| <= 8 && SmallGroups(groups)
    requires st.p == 0 && st.s == |pre|
    ensures Good(AfterGroups(st, groups))
    ensures var str := pre + Joined(groups) + post;
            Scan(str, st) == Scan(str, AfterGroups(st, groups))
    decreases |groups|
  {
    hide Scan, Hex, Joined, Step;
    AfterGroupsGood(st, groups);
    var str, g, rest := pre + Joined(groups) + post, groups[0], groups[1..];
    if rest == [] {
      JoinedOne(groups);
      ScanGroup(pre, g, post, st);
      assert AfterGroups(st, groups).parts == st.parts[st.d := g];
    } else {
      var tail := ":" + (Joined(rest) + post);
      SplitGroup(pre, groups, post);
      ScanGroup(pre, g, tail, st);
      var mid := State(st.s + |Hex(g)|, st.d, |Hex(g)|, st.coloncolon, st.parts[st.d := g]);
      JoinedFirst(rest);
      ColonStep(str, mid);
      var next := State(mid.s + 1, mid.d + 1, 0, mid.coloncolon, mid.parts);
      ScanJoined(pre + Hex(g) + ":", rest, post, next);
      AfterRest(st, groups, next);
    }
  }

  lemma JoinedOne(groups: seq<nat>)
    requires |groups| == 1
    ensures Joined(groups) == Hex(groups[0])
  {
  }

  lemma SplitGroup(pre: string, groups: seq<nat>, post: string)
    requires |groups| > 1
    ensures var str, g, rest := pre + Joined(groups) + post, groups[0], groups[1..];
            && str == pre + Hex(g) + (":" + (Joined(rest) + post))
            && str == (pre + Hex(g) + ":") + Joined(rest) + post
            && |str| > |pre| + |Hex(g)| && str[|pre| + |Hex(g)|] == ':'
            && (Joined(rest) != "" ==> |pre| + |Hex(g)| + 1 < |str| && str[|pre| + |Hex(g)| + 1] == Joined(rest)[0])
  {
    hide Hex;
    var g, rest := groups[0], groups[1..];
    assert Joined(groups) == Hex(g) + ":" + Joined(rest);
    SplitText(pre, Hex(g), Joined(rest), post);
  }

  lemma SplitText(pre: string, u: string, v: string, post: string)
    ensures var str := pre + (u + ":" + v) + post;
            && str == pre + u + (":" + (v + post))
            && str == (pre + u + ":") + v + post
            && |str| > |pre| + |u| && str[|pre| + |u|] == ':'
            && (v != "" ==> |pre| + |u| + 1 < |str| && str[|pre| + |u| + 1] == v[0])
  {
    var str := pre + (u + ":" + v) + post;
    assert str == (pre + u + ":") + v + post;
    assert (pre + u + ":")[|pre| + |u|] == ':';
  }

  lemma AfterRest(st: State, groups: seq<nat>, next: State)
    requires Good(st) && |groups| > 1 && st.d + |groups| <= 8 && Good(next)
    requires next == State(st.s + |Hex(groups[0])| + 1, st.d + 1, 0, st.coloncolon, st.parts[st.d := groups[0]])
    ensures AfterGroups(next, groups[1..]) == AfterGroups(st, groups)
  {
    hide Hex;
    var rest := groups[1..];
    assert |Joined(groups)| == |Hex(groups[0])| + 1 + |Joined(rest)|;
    assert next.parts[..next.d] == st.parts[..st.d] + [groups[0]];
    assert next.parts[next.d + |rest|..] == st.parts[st.d + |groups|..];
    assert groups == [groups[0]] + rest;
  }

  // ----- Round trip: whole addresses

  lemma PlainText(a: seq<nat>, query: string -> Option<Address4>)
    requires IsAddress(a)
    ensures Parsed(Joined(a), query) == Stopped(|Joined(a)|, a)
  {
    hide Scan, Hex, Joined, MaybeSuffix;
    var text := Joined(a);
    assert "" + text + "" == text;
    ScanJoined("", a, "", Start());
    AfterGroupsGood(Start(), a);
    var st := AfterGroups(Start(), a);
    assert st.parts == a;
    ScanNext(text, st);
  }

  /** The scanner at `::`, after the groups before it. */
  lemma UpToRun(a: seq<nat>, zp: nat, post: string) returns (st: State)
    requires IsAddress(a) && zp <= 6
    ensures Good(st) && st.s == |Joined(a[..zp])| && st.coloncolon < 0
    ensures if zp == 0 then st == Start() else st.p > 0 && st.d == zp - 1
    ensures st.parts[..zp] == a[..zp]
    ensures var str := Joined(a[..zp]) + post; Scan(str, Start()) == Scan(str, st)
  {
    assert Joined([]) == "";
    hide Scan, Hex, Joined;
    if zp == 0 {
      st := Start();
      assert a[..zp] == [];
    } else {
      var groups := a[..zp];
      assert "" + Joined(groups) + post == Joined(groups) + post;
      ScanJoined("", groups, post, Start());
      AfterGroupsGood(Start(), groups);
      st := AfterGroups(Start(), groups);
      assert st.parts[..zp] == groups;
    }
  }

  /** The scanner behind `::`. */
  lemma PastRun(a: seq<nat>, zp: nat, post: string) returns (st: State)
    requires IsAddress(a) && zp <= 6
    ensures Good(st) && st.s == |Joined(a[..zp]) + "::"| && st.coloncolon == zp && st.d == zp + 1 && st.p == 0
    ensures st.parts[..zp + 1] == a[..zp] + [0]
    ensures var str := Joined(a[..zp]) + "::" + post; Scan(str, Start()) == Scan(str, st)
  {
    hide Scan, Hex, Joined;
    var pre := Joined(a[..zp]);
    var str := pre + "::" + post;
    assert str == pre + ("::" + post);
    var before := UpToRun(a, zp, "::" + post);
    assert str[before.s] == ':' && str[before.s + 1] == ':';
    DoubleColon(str, before);
    st := State(before.s + 2, zp + 1, 0, zp, before.parts[zp := 0]);
    assert st.parts[..zp + 1] == before.parts[..zp] + [0];
  }

  lemma CompressedText(a: seq<nat>, zp: nat, zl: nat, query: string -> Option<Address4>)
    requires IsAddress(a) && ZeroRun(a, zp, zl) && zl > 1
    ensures var text := Compressed(a, zp, zl); Parsed(text, query) == Stopped(|text|, a)
  {
    assert Joined([]) == "";
    hide Scan, Hex, Joined, MaybeSuffix, Expand;
    var rest := a[zp + zl..];
    var pre, post := Joined(a[..zp]), Joined(rest);
    var text := pre + "::" + post;
    var st := PastRun(a, zp, post);
    if rest == [] {
      assert st.s == |text|;
      ScanNext(text, st);
    } else {
      assert (pre + "::") + post + "" == text;
      ScanJoined(pre + "::", rest, "", st);
      AfterGroupsGood(st, rest);
      ScanNext(text, AfterGroups(st, rest));
    }
    var parts := if rest == [] then st.parts else AfterGroups(st, rest).parts;
    ExpandRun(a, zp, zl, parts, |text|);
  }

  lemma ExpandRun(a: seq<nat>, zp: nat, zl: nat, parts: seq<nat>, s: nat)
    requires IsAddress(a) && ZeroRun(a, zp, zl) && zl > 1 && |parts| == 8
    requires parts[..zp + 1] == a[..zp] + [0]
    requires parts[zp + 1..9 - zl] == a[zp + zl..]
    ensures Expand(s, 8 - zl, zp, parts) == Stopped(s, a)
  {
    var now := parts[..zp + 1] + Zeros(zl - 1) + parts[zp + 1..9 - zl];
    assert now == a[..zp] + [0] + Zeros(zl - 1) + a[zp + zl..];
    forall i | 0 <= i < 8 ensures now[i] == a[i] {
    }
    assert now == a;
  }

  lemma {:induction false} LastColonAt(str: string, at: nat, s: nat)
    requires at <= s < |str| && str[at] == ':'
    requires forall i :: at < i <= s ==> str[i] != ':'
    ensures LastColon(str, s) == at
  {
    if s > at {
      LastColonAt(str, at, s - 1);
    }
  }

  lemma {:induction false} DecimalLength(n: nat, k: nat)
    requires n < 256 && (k == 3 || (k == 2 && n < 100) || (k == 1 && n < 10))
    ensures |Decimal(n)| <= k
  {
    if n >= 10 {
      DecimalLength(n / 10, k - 1);
    }
  }

  lemma DigitsAreHex(digits: string)
    requires AllDigits(digits)
    ensures AllHex(digits) && ':' !in digits
  {
  }

  /** Scanning stops at the first dot of an IPv4 suffix. */
  lemma ScanSuffix(pre: string, b: Address4, st: State) returns (at: State)
    requires Good(st) && st.d < 8 && st.p == 0 && st.s == |pre| > 0 && pre[|pre| - 1] == ':'
    requires forall i :: 0 <= i < 4 ==> b[i] < 256
    ensures var str := pre + Text4(b);
            && Good(at) && at.s < |str| && at.p > 0 && at.d == st.d && at.coloncolon == st.coloncolon
            && at.parts[..st.d] == st.parts[..st.d]
            && Scan(str, st) == Halt(at)
            && LastColon(str, at.s) == |pre| - 1
  {
    hide Scan, Decimal, Dotted, HexValue, LastColon;
    var digits, post := Decimal(b[0]), Dotted(b[1..]);
    var str := pre + Text4(b);
    assert str == pre + digits + post;
    DecimalLength(b[0], 3);
    DigitsAreHex(digits);
    ScanDigits(pre, digits, post, st);
    at := AfterDigits(st, digits);
    DottedStarts(b[1..]);
    assert str[at.s] == post[0] == '.';
    ScanNext(str, at);
    forall i | |pre| - 1 < i <= at.s ensures str[i] != ':' {
      if i < at.s {
        assert str[i] == digits[i - |pre|];
      }
    }
    LastColonAt(str, |pre| - 1, at.s);
  }

  lemma DottedStarts(b: seq<nat>)
    requires b != []
    ensures Dotted(b) != "" && Dotted(b)[0] == '.'
  {
    hide Decimal;
  }

  /** What `Finish` does with a suffix that parses. */
  lemma FinishSuffix(pre: string, b: Address4, at: State, query: string -> Option<Address4>)
    requires forall i :: 0 <= i < 4 ==> b[i] < 256
    requires |pre| > 1 && Good(at) && at.p > 0 && 0 <= at.coloncolon < at.d < 6
    requires at.s < |pre + Text4(b)| && LastColon(pre + Text4(b), at.s) == |pre| - 1
    ensures Finish(pre + Text4(b), at, query) ==
      Expand(|pre + Text4(b)|, at.d + 1, at.coloncolon,
          at.parts[at.d := b[0] * 256 + b[1]][at.d + 1 := b[2] * 256 + b[3]])
  {
    hide Text4, Parse4, LastColon, Expand;
    var str := pre + Text4(b);
    assert str[|pre|..] == Text4(b);
    RoundTrip4(b, query);
  }

  /** The scanner behind an initial `::`. */
  lemma PastCompatible(a: seq<nat>, b: Address4) returns (st: State)
    requires IsAddress(a)
    ensures Good(st) && st.s == 2 && st.d == 1 && st.p == 0 && st.coloncolon == 0
    ensures st.parts[..1] == a[..0] + [0]
    ensures Scan("::" + Text4(b), Start()) == Scan("::" + Text4(b), st)
  {
    EmptyJoined();
    hide Scan, Joined, Hex, Text4;
    assert a[..0] == [] && "" + "::" + Text4(b) == "::" + Text4(b);
    st := PastRun(a, 0, Text4(b));
  }

  lemma CompatibleText(a: seq<nat>, query: string -> Option<Address4>)
    requires IsAddress(a) && ZeroRun(a, 0, 6)
    ensures var text := "::" + Text4(LastBytes(a)); Parsed(text, query) == Stopped(|text|, a)
  {
    hide Scan, Text4, Finish, LastColon, Expand;
    var b := LastBytes(a);
    var text := "::" + Text4(b);
    var st := PastCompatible(a, b);
    var at := ScanSuffix("::", b, st);
    FinishSuffix("::", b, at, query);
    CompatibleParts(a, st, at, |text|);
  }

  lemma CompatibleParts(a: seq<nat>, st: State, at: State, s: nat)
    requires IsAddress(a) && ZeroRun(a, 0, 6) && Good(st) && Good(at)
    requires st.parts[..1] == a[..0] + [0] && at.parts[..1] == st.parts[..1]
    ensures var b := LastBytes(a);
            Expand(s, 2, 0, at.parts[1 := b[0] * 256 + b[1]][2 := b[2] * 256 + b[3]]) == Stopped(s, a)
  {
    hide Expand;
    var b := LastBytes(a);
    var parts := at.parts[1 := b[0] * 256 + b[1]][2 := b[2] * 256 + b[3]];
    assert parts[..1] == at.parts[..1] && parts[1..3] == a[6..];
    ExpandRun(a, 0, 6, parts, s);
  }

  lemma MappedParts(a: seq<nat>, st: State, at: State, s: nat)
    requires IsAddress(a) && ZeroRun(a, 0, 5) && a[5] == 0xFFFF && Good(st) && Good(at)
    requires st.parts[..1] == a[..0] + [0] && at.parts[..2] == st.parts[1 := 0xFFFF][..2]
    ensures var b := LastBytes(a);
            Expand(s, 3, 0, at.parts[2 := b[0] * 256 + b[1]][3 := b[2] * 256 + b[3]]) == Stopped(s, a)
  {
    hide Expand;
    var b := LastBytes(a);
    var parts := at.parts[2 := b[0] * 256 + b[1]][3 := b[2] * 256 + b[3]];
    assert parts[..2] == at.parts[..2];
    assert parts[..1] == parts[..2][..1] == st.parts[..1];
    assert parts[1] == parts[..2][1] == 0xFFFF;
    assert parts[1..4] == a[5..];
    ExpandRun(a, 0, 5, parts, s);
  }

  /** The scanner behind `::ffff:`. */
  lemma PastMapped(a: seq<nat>, b: Address4) returns (st: State)
    requires IsAddress(a)
    ensures Good(st) && st.parts[..1] == a[..0] + [0]
    ensures var text := "::ffff:" + Text4(b);
            Scan(text, Start()) == Scan(text, State(7, 2, 0, 0, st.parts[1 := 0xFFFF]))
  {
    MappedHex();
    EmptyJoined();
    hide Scan, Joined, Hex, Text4;
    var text, tail := "::ffff:" + Text4(b), "ffff:" + Text4(b);
    assert a[..0] == [] && "" + "::" + tail == text;
    st := PastRun(a, 0, tail);
    assert "::" + "ffff" + (":" + Text4(b)) == text;
    ScanGroup("::", 0xFFFF, ":" + Text4(b), st);
    TextStarts(b);
    assert text[7] == Text4(b)[0];
    ColonStep(text, State(6, 1, 4, 0, st.parts[1 := 0xFFFF]));
  }

  lemma MappedText(a: seq<nat>, query: string -> Option<Address4>)
    requires IsAddress(a) && ZeroRun(a, 0, 5) && a[5] == 0xFFFF
    ensures var text := "::ffff:" + Text4(LastBytes(a)); Parsed(text, query) == Stopped(|text|, a)
  {
    hide Scan, Text4, Finish, LastColon, Expand;
    var b := LastBytes(a);
    var text := "::ffff:" + Text4(b);
    var st := PastMapped(a, b);
    var at := ScanSuffix("::ffff:", b, State(7, 2, 0, 0, st.parts[1 := 0xFFFF]));
    FinishSuffix("::ffff:", b, at, query);
    MappedParts(a, st, at, |text|);
  }

  lemma MappedHex()
    ensures Hex(0xFFFF) == "ffff"
  {
    assert Hex(0xF) == "f";
    assert Hex(0xFF) == Hex(0xF) + "f";
    assert Hex(0xFFF) == Hex(0xFF) + "f";
  }

  lemma TextStarts(b: Address4)
    ensures Text4(b) != "" && HexDigit(Text4(b)[0]) >= 0
  {
    hide Decimal, Dotted;
    DigitsAreHex(Decimal(b[0]));
  }

  /** Parsing the text of an address reads all of it and gives the address back. */
  lemma RoundTrip6(a: seq<nat>, text: string, query: string -> Option<Address4>)
    requires IsAddress(a) && Unparsed(a, text)
    ensures Parsed(text, query) == Stopped(|text|, a)
  {
    hide Parsed, Text4, Joined;
    if ZeroRun(a, 0, 8) {
      EmptyJoined();
      CompressedText(a, 0, 8, query);
      assert a[..0] == [] && a[8..] == [] && Compressed(a, 0, 8) == "::";
    } else if ZeroRun(a, 0, 6) {
      CompatibleText(a, query);
    } else if ZeroRun(a, 0, 5) && a[5] == 0xFFFF {
      MappedText(a, query);
    } else {
      var zp, zl :| FirstLongest(a, zp, zl) && text == Compressed(a, zp, zl);
      if zl > 1 {
        CompressedText(a, zp, zl, query);
      } else {
        PlainText(a, query);
      }
    }
  }

  lemma EmptyJoined()
    ensures Joined([]) == ""
  {
  }

  // ----- In terms of characters

  /** The hexadecimal digits in either case and what they stand for. */
  lemma HexDigitsAre()
    ensures forall n :: 0 <= n < 16 ==> HexDigit("0123456789abcdef"[n]) == n == HexDigit("0123456789ABCDEF"[n])
    ensures forall n :: 0 <= n < 16 ==> HexChar(n) == "0123456789abcdef"[n]
  {
  }

  /** No other character is one. */
  lemma HexDigitsOnly(c: char)
    ensures HexDigit(c) >= 0 <==> c in "0123456789abcdef" || c in "0123456789ABCDEF"
  {
    var n := HexDigit(c);
    if n >= 0 {
      assert "0123456789abcdef"[n] == c || "0123456789ABCDEF"[n] == c;
    }
  }

  /** A group of four digits, the first counting most. */
  lemma FourHexDigits(text: string)
    requires |text| == 4 && AllHex(text)
    ensures HexValue(0, text)
        == 4096 * HexDigit(text[0]) + 256 * HexDigit(text[1]) + 16 * HexDigit(text[2]) + HexDigit(text[3])
  {
    var a, b, c, d := HexDigit(text[0]), HexDigit(text[1]), HexDigit(text[2]), HexDigit(text[3]);
    var t1, t2, t3 := text[1..], text[1..][1..], text[1..][1..][1..];
    assert t1[0] == text[1] && t2[0] == text[2] && t3[0] == text[3] && t3[1..] == "";
    assert HexValue(((a * 16 + b) * 16 + c) * 16 + d, "") == 4096 * a + 256 * b + 16 * c + d;
    assert HexValue((a * 16 + b) * 16 + c, t3) == 4096 * a + 256 * b + 16 * c + d;
    assert HexValue(a * 16 + b, t2) == 4096 * a + 256 * b + 16 * c + d;
    assert HexValue(a, t1) == 4096 * a + 256 * b + 16 * c + d;
  }

  // ----- Upper and lower case

  /** The same character, or the same letter from a to f in the other case. */
  predicate SameButCase(c: char, d: char) {
    c == d || ('a' <= c <= 'f' && d as int == c as int - 32) || ('A' <= c <= 'F' && d as int == c as int + 32)
  }

  ghost predicate TextSameButCase(str: string, other: string) {
    |str| == |other| && forall i :: 0 <= i < |str| ==> SameButCase(str[i], other[i])
  }

  lemma CaseDigit(c: char, d: char)
    requires SameButCase(c, d)
    ensures HexDigit(c) == HexDigit(d) && IsDigit(c) == IsDigit(d) && (IsDigit(c) ==> c == d)
    ensures (c == ':') == (d == ':') && (c == '.') == (d == '.')
  {
  }

  lemma StepCase(str: string, other: string, st: State)
    requires TextSameButCase(str, other) && Good(st) && st.s < |str|
    ensures Step(str, st) == Step(other, st)
  {
    hide SameButCase, HexDigit;
    CaseDigit(str[st.s], other[st.s]);
    if st.s + 1 < |str| {
      CaseDigit(str[st.s + 1], other[st.s + 1]);
    }
  }

  lemma {:induction false} ScanCase(str: string, other: string, st: State)
    requires TextSameButCase(str, other) && Good(st) && st.s <= |str|
    ensures Scan(str, st) == Scan(other, st)
    decreases |str| - st.s
  {
    hide Step, SameButCase;
    if st.s < |str| {
      StepCase(str, other, st);
      if Step(str, st).Go? {
        ScanCase(str, other, Step(str, st).st);
      }
    }
  }

  lemma {:induction false} NumberCase(str: string, other: string, t: nat, part: nat)
    requires TextSameButCase(str, other) && t <= |str|
    ensures ScanNumber(str, t, part) == ScanNumber(other, t, part)
    decreases |str| - t
  {
    hide SameButCase;
    if t < |str| {
      CaseDigit(str[t], other[t]);
      if IsDigit(str[t]) {
        NumberCase(str, other, t + 1, part * 10 + DigitValue(str[t]));
      }
    }
  }

  lemma {:induction false} QuadCase(str: string, other: string, q: Quad)
    requires TextSameButCase(str, other) && q.s <= |str| && q.d <= 4 && |q.value| == 4
    ensures ScanQuad(str, q) == ScanQuad(other, q)
    decreases 4 - q.d
  {
    hide SameButCase, ScanNumber;
    if q.d < 4 && q.s < |str| {
      CaseDigit(str[q.s], other[q.s]);
      var t := q.s + if q.d == 0 then 0 else 1;
      if t < |str| {
        CaseDigit(str[t], other[t]);
        if IsDigit(str[t]) {
          NumberCase(str, other, t + 1, DigitValue(str[t]));
          var (end, part) := ScanNumber(str, t + 1, DigitValue(str[t]));
          if part <= 255 {
            QuadCase(str, other, Quad(end, q.d + 1, q.value[q.d := part]));
          }
        }
      }
    }
  }

  lemma {:induction false} ColonCase(str: string, other: string, s: nat)
    requires TextSameButCase(str, other) && s < |str|
    ensures LastColon(str, s) == LastColon(other, s)
  {
    hide SameButCase;
    CaseDigit(str[s], other[s]);
    if s > 0 {
      ColonCase(str, other, s - 1);
    }
  }

  /** A name service that does not look at the case of letters. */
  ghost predicate CaseBlind(query: string -> Option<Address4>) {
    forall str, other :: TextSameButCase(str, other) ==> query(str) == query(other)
  }

  /** Parsing does not look at the case of letters, if the name service does not; so it does not if
      there is no name service. */
  lemma ParsedCase(str: string, other: string, query: string -> Option<Address4>)
    requires TextSameButCase(str, other) && CaseBlind(query)
    ensures Parsed(str, query) == Parsed(other, query)
  {
    hide SameButCase, Scan, ScanQuad, LastColon, Expand;
    ScanCase(str, other, Start());
    match Scan(str, Start())
    case Halt(st) =>
      if st.s < |str| {
        ColonCase(str, other, st.s);
        var t := LastColon(str, st.s);
        assert TextSameButCase(str[t + 1..], other[t + 1..]);
        QuadCase(str[t + 1..], other[t + 1..], StartQuad());
      }
    case _ =>
  }
}
