/** Text of IPv4 addresses: four decimal numbers with dots between them. */
module IP4Text {

  type Address4 = b: seq<nat> | |b| == 4 witness [0, 0, 0, 0]
  type Byte = x: nat | x < 256

  /** The four bytes found, how many of them, and where the scan stopped. */
  datatype Quad = Quad(s: nat, d: nat, value: seq<nat>)

  predicate IsDigit(c: char) {
    '0' <= c <= '9'
  }

  predicate AllDigits(s: string) {
    forall i :: 0 <= i < |s| ==> IsDigit(s[i])
  }

  function DigitValue(c: char): (v: int)
    ensures IsDigit(c) ==> 0 <= v < 10
  {
    c as int - '0' as int
  }

  // ----- Printing

  function DecimalChar(n: nat): (c: char)
    requires n < 10
    ensures IsDigit(c) && DigitValue(c) == n
  {
    ('0' as int + n) as char
  }

  /** `%d` of a non-negative number. */
  function Decimal(n: nat): (s: string)
    ensures s != [] && AllDigits(s)
  {
    if n < 10 then [DecimalChar(n)] else Decimal(n / 10) + [DecimalChar(n % 10)]
  }

  /** Numbers with a dot before each. */
  function Dotted(b: seq<nat>): string {
    if b == [] then "" else "." + Decimal(b[0]) + Dotted(b[1..])
  }

  function Text4(b: Address4): string {
    Decimal(b[0]) + Dotted(b[1..])
  }

  // ----- Parsing

  /** Digits from `t` on, while the number stays below 256. */
  function ScanNumber(str: string, t: nat, part: nat): (r: (nat, nat))
    requires t <= |str|
    ensures t <= r.0 <= |str|
    decreases |str| - t
  {
    if t < |str| && IsDigit(str[t]) && part <= 255 then ScanNumber(str, t + 1, part * 10 + DigitValue(str[t]))
    else (t, part)
  }

  /** The loop of `IPAddressArg::basic_parse` from one of its states. */
  function ScanQuad(str: string, q: Quad): (r: Quad)
    requires q.s <= |str| && q.d <= 4 && |q.value| == 4
    ensures r.s <= |str| && r.d <= 4 && |r.value| == 4
    decreases 4 - q.d
  {
    if !(q.d < 4 && q.s != |str| && (q.d == 0 || str[q.s] == '.')) then q else
      var t := q.s + if q.d == 0 then 0 else 1;
      if t == |str| || !IsDigit(str[t]) then q else
        var (end, part) := ScanNumber(str, t + 1, DigitValue(str[t]));
        if part > 255 then q else ScanQuad(str, Quad(end, q.d + 1, q.value[q.d := part]))
  }

  function StartQuad(): Quad {
    Quad(0, 0, [0, 0, 0, 0])
  }

  datatype Option<T> = None | Some(value: T)

  /** `IPAddressArg::parse`, with the name service as a parameter. */
  function Parse4(str: string, query: string -> Option<Address4>): Option<Address4> {
    var q := ScanQuad(str, StartQuad());
    if q.s == |str| && q.d == 4 then Some(q.value) else query(str)
  }

  method BasicParse4(str: string) returns (s: nat, value: array<nat>, nbytes: nat)
    ensures fresh(value) && value.Length == 4
    ensures Quad(s, nbytes, value[..]) == ScanQuad(str, StartQuad())
  {
    value := new nat[4](_ => 0);
    s := 0;
    var d := 0;
    assert value[..] == [0, 0, 0, 0];
    while d < 4 && s != |str| && (d == 0 || str[s] == '.')
      invariant s <= |str| && d <= 4
      invariant ScanQuad(str, Quad(s, d, value[..])) == ScanQuad(str, StartQuad())
      decreases 4 - d
    {
      var t := s + if d == 0 then 0 else 1;
      if t == |str| || !IsDigit(str[t]) {
        break;
      }
      ghost var first, from := t, DigitValue(str[t]);
      var part: nat := DigitValue(str[t]);
      t := t + 1;
      while t != |str| && IsDigit(str[t]) && part <= 255
        invariant t <= |str|
        invariant ScanNumber(str, t, part) == ScanNumber(str, first + 1, from)
        invariant ScanQuad(str, Quad(s, d, value[..])) == ScanQuad(str, StartQuad())
        decreases |str| - t
      {
        part := part * 10 + DigitValue(str[t]);
        t := t + 1;
      }
      if part > 255 {
        break;
      }
      ghost var before := value[..];
      value[d] := part;
      assert value[..] == before[d := part];
      s := t;
      d := d + 1;
      if d == 4 {
        break;
      }
    }
    nbytes := d;
  }

  // ----- Round trip

  lemma {:induction false} ScanNumberAppend(pre: string, digits: string, post: string, part: nat)
    requires AllDigits(digits)
    requires post == "" || !IsDigit(post[0])
    requires DecimalValue(part, digits) <= 255
    ensures ScanNumber(pre + digits + post, |pre|, part) == (|pre| + |digits|, DecimalValue(part, digits))
    decreases |digits|
  {
    var str := pre + digits + post;
    DecimalGrows(part, digits);
    if digits == "" {
      if post != "" {
        assert str[|pre|] == post[0];
      }
    } else {
      Regroup(pre, digits, post);
      ScanNumberAppend(pre + [digits[0]], digits[1..], post, part * 10 + DigitValue(digits[0]));
    }
  }

  /** The number that `digits` spell out behind `part`. */
  function DecimalValue(part: nat, digits: string): nat
    decreases |digits|
  {
    if digits == "" then part
    else DecimalValue(part * 10 + if IsDigit(digits[0]) then DigitValue(digits[0]) else 0, digits[1..])
  }

  lemma {:induction false} DecimalGrows(part: nat, digits: string)
    ensures DecimalValue(part, digits) >= part
    decreases |digits|
  {
    if digits != "" {
      DecimalGrows(part * 10 + if IsDigit(digits[0]) then DigitValue(digits[0]) else 0, digits[1..]);
    }
  }

  lemma {:induction false} DecimalValueLast(part: nat, digits: string, c: char)
    requires IsDigit(c)
    ensures DecimalValue(part, digits + [c]) == DecimalValue(part, digits) * 10 + DigitValue(c)
    decreases |digits|
  {
    if digits != "" {
      var next := part * 10 + if IsDigit(digits[0]) then DigitValue(digits[0]) else 0;
      assert (digits + [c])[1..] == digits[1..] + [c];
      DecimalValueLast(next, digits[1..], c);
    } else {
      assert digits + [c] == [c] && [c][1..] == "";
      assert DecimalValue(part, [c]) == DecimalValue(part * 10 + DigitValue(c), "");
    }
  }

  lemma {:induction false} DecimalRoundTrip(n: nat)
    ensures DecimalValue(0, Decimal(n)) == n
  {
    if n < 10 {
      var c := DecimalChar(n);
      assert [c][1..] == "";
      assert DecimalValue(0, [c]) == DecimalValue(n, "");
    } else {
      DecimalRoundTrip(n / 10);
      DecimalValueLast(0, Decimal(n / 10), DecimalChar(n % 10));
    }
  }

  lemma DecimalFirst(digits: string)
    requires digits != "" && IsDigit(digits[0])
    ensures DecimalValue(0, digits) == DecimalValue(DigitValue(digits[0]), digits[1..])
  {
  }

  lemma Regroup(pre: string, digits: string, post: string)
    requires digits != ""
    ensures (pre + [digits[0]]) + digits[1..] + post == pre + digits + post
    ensures (pre + digits + post)[|pre|] == digits[0]
  {
    assert digits == [digits[0]] + digits[1..];
  }

  lemma TailDigits(digits: string)
    requires digits != "" && AllDigits(digits)
    ensures IsDigit(digits[0]) && AllDigits(digits[1..])
  {
  }

  lemma FirstDigit(pre: string, digits: string, post: string)
    requires digits != "" && AllDigits(digits)
    requires post == "" || !IsDigit(post[0])
    requires DecimalValue(0, digits) <= 255
    ensures var str := pre + digits + post;
            IsDigit(str[|pre|]) &&
            ScanNumber(str, |pre| + 1, DigitValue(str[|pre|])) == (|pre| + |digits|, DecimalValue(0, digits))
  {
    hide *;
    Regroup(pre, digits, post);
    TailDigits(digits);
    DecimalFirst(digits);
    ScanNumberAppend(pre + [digits[0]], digits[1..], post, DigitValue(digits[0]));
  }

  /** Reading a printed number whose first digit is read separately. */
  lemma ScanDecimal(pre: string, n: Byte, post: string)
    requires post == "" || !IsDigit(post[0])
    ensures var str := pre + Decimal(n) + post;
            IsDigit(str[|pre|]) &&
            ScanNumber(str, |pre| + 1, DigitValue(str[|pre|])) == (|pre| + |Decimal(n)|, n)
  {
    hide *;
    DecimalRoundTrip(n);
    FirstDigit(pre, Decimal(n), post);
  }

  lemma DottedNoDigit(b: seq<nat>)
    ensures Dotted(b) == "" || !IsDigit(Dotted(b)[0])
  {
  }

  /** Numbers with a dot before each fill the remaining bytes. */
  lemma {:induction false} ScanDotted(pre: string, b: seq<nat>, q: Quad)
    requires forall i :: 0 <= i < |b| ==> b[i] < 256
    requires q.s == |pre| && |q.value| == 4 && q.d > 0 && q.d + |b| == 4
    ensures ScanQuad(pre + Dotted(b), q) == Quad(|pre + Dotted(b)|, 4, q.value[..q.d] + b)
    decreases |b|
  {
    hide Decimal, ScanNumber;
    var str := pre + Dotted(b);
    if b == [] {
      assert q.value[..4] == q.value;
    } else {
      var rest := Dotted(b[1..]);
      DottedNoDigit(b[1..]);
      ScanDecimal(pre + ".", b[0], rest);
      assert str == (pre + ".") + Decimal(b[0]) + rest;
      var next := Quad(|pre + "." + Decimal(b[0])|, q.d + 1, q.value[q.d := b[0]]);
      assert ScanQuad(str, q) == ScanQuad(str, next);
      ScanDotted(pre + "." + Decimal(b[0]), b[1..], next);
      assert next.value[..next.d] + b[1..] == q.value[..q.d] + b;
    }
  }

  lemma RoundTrip4(b: Address4, query: string -> Option<Address4>)
    requires forall i :: 0 <= i < 4 ==> b[i] < 256
    ensures Parse4(Text4(b), query) == Some(b)
  {
    hide Decimal, ScanNumber, Dotted;
    var str, rest := Text4(b), Dotted(b[1..]);
    DottedNoDigit(b[1..]);
    ScanDecimal("", b[0], rest);
    assert "" + Decimal(b[0]) + rest == str;
    var next := Quad(|Decimal(b[0])|, 1, StartQuad().value[0 := b[0]]);
    assert ScanQuad(str, StartQuad()) == ScanQuad(str, next);
    ScanDotted(Decimal(b[0]), b[1..], next);
    assert next.value[..1] + b[1..] == b;
  }

  // ----- The texts accepted

  /** A number from 0 to 255 in decimal, leading zeros allowed. */
  predicate IsNumber(text: string, v: nat) {
    text != "" && AllDigits(text) && DecimalValue(0, text) == v <= 255
  }

  ghost predicate DottedAt(text: string, vals: seq<nat>, n: nat)
    requires vals != []
    decreases |vals|, 0
  {
    1 <= n <= |text| && text[0] == '.' && IsNumber(text[1..n], vals[0]) && DottedNumbers(text[n..], vals[1..])
  }

  /** Numbers with a dot before each. */
  ghost predicate DottedNumbers(text: string, vals: seq<nat>)
    decreases |vals|, 1
  {
    if vals == [] then text == "" else exists n :: 1 <= n <= |text| && DottedAt(text, vals, n)
  }

  ghost predicate QuadAt(text: string, vals: Address4, n: nat) {
    n <= |text| && IsNumber(text[..n], vals[0]) && DottedNumbers(text[n..], vals[1..])
  }

  /** Four numbers with dots between them. */
  ghost predicate QuadText(text: string, vals: Address4) {
    exists n: nat :: QuadAt(text, vals, n)
  }

  /** What a number scan found. */
  lemma {:induction false} ScanNumberIs(str: string, t: nat, part: nat)
    requires t <= |str|
    ensures var (end, v) := ScanNumber(str, t, part);
            AllDigits(str[t..end]) && v == DecimalValue(part, str[t..end])
                && (v <= 255 && end < |str| ==> !IsDigit(str[end]))
    decreases |str| - t
  {
    if t < |str| && IsDigit(str[t]) && part <= 255 {
      var next := part * 10 + DigitValue(str[t]);
      ScanNumberIs(str, t + 1, next);
      var (end, v) := ScanNumber(str, t + 1, next);
      assert str[t..end][1..] == str[t + 1..end];
    } else {
      assert str[t..t] == "";
    }
  }

  /** A number read from its first digit on is a number. */
  lemma NumberIs(str: string, t: nat)
    requires t < |str| && IsDigit(str[t])
    ensures var (end, v) := ScanNumber(str, t + 1, DigitValue(str[t]));
            t < end && (v <= 255 ==> IsNumber(str[t..end], v) && (end < |str| ==> !IsDigit(str[end])))
  {
    hide ScanNumber;
    ScanNumberIs(str, t + 1, DigitValue(str[t]));
    var (end, v) := ScanNumber(str, t + 1, DigitValue(str[t]));
    var run := str[t..end];
    assert run[1..] == str[t + 1..end] && run[0] == str[t];
    DecimalFirst(run);
  }

  /** And a number is read to its end. */
  lemma NumberRead(str: string, t: nat, end: nat, v: nat)
    requires t <= end <= |str| && IsNumber(str[t..end], v) && (end < |str| ==> !IsDigit(str[end]))
    ensures t < |str| && IsDigit(str[t]) && ScanNumber(str, t + 1, DigitValue(str[t])) == (end, v)
  {
    hide ScanNumber, DigitValue, AllDigits, DecimalValue, IsDigit;
    assert str == str[..t] + str[t..end] + str[end..];
    assert end < |str| ==> str[end..][0] == str[end];
    FirstDigit(str[..t], str[t..end], str[end..]);
  }

  lemma NoDigitFirst(text: string, vals: seq<nat>)
    requires DottedNumbers(text, vals)
    ensures text != "" ==> !IsDigit(text[0])
  {
  }

  /** The scan from the second number on accepts exactly dotted numbers. */
  lemma {:induction false} ScanAccepts(str: string, q: Quad, vals: seq<nat>)
    requires q.s <= |str| && 0 < q.d && q.d + |vals| == 4 && |q.value| == 4
    ensures ScanQuad(str, q) == Quad(|str|, 4, q.value[..q.d] + vals) <==> DottedNumbers(str[q.s..], vals)
    decreases |vals|
  {
    hide ScanNumber, IsNumber;
    if vals == [] {
      assert q.value[..4] == q.value;
    } else {
      if DottedNumbers(str[q.s..], vals) {
        ScanForward(str, q, vals);
      }
      if ScanQuad(str, q) == Quad(|str|, 4, q.value[..q.d] + vals) {
        ScanBackward(str, q, vals);
      }
    }
  }

  lemma {:induction false} ScanForward(str: string, q: Quad, vals: seq<nat>)
    requires q.s <= |str| && 0 < q.d && q.d + |vals| == 4 && |q.value| == 4 && vals != []
    requires DottedNumbers(str[q.s..], vals)
    ensures ScanQuad(str, q) == Quad(|str|, 4, q.value[..q.d] + vals)
    decreases |vals|, 0
  {
    hide ScanNumber, IsNumber, ScanQuad;
    var text := str[q.s..];
    var n :| 1 <= n <= |text| && DottedAt(text, vals, n);
    var end := q.s + n;
    assert text[1..n] == str[q.s + 1..end] && text[n..] == str[end..];
    NoDigitFirst(text[n..], vals[1..]);
    NumberRead(str, q.s + 1, end, vals[0]);
    var next := Quad(end, q.d + 1, q.value[q.d := vals[0]]);
    NumberSmall(text[1..n], vals[0]);
    QuadStep(str, q, end, vals[0]);
    ScanAccepts(str, next, vals[1..]);
    assert next.value[..next.d] + vals[1..] == q.value[..q.d] + vals;
  }

  lemma NumberSmall(text: string, v: nat)
    requires IsNumber(text, v)
    ensures v <= 255
  {
  }

  lemma QuadStep(str: string, q: Quad, end: nat, v: nat)
    requires q.s < |str| && 0 < q.d < 4 && |q.value| == 4 && str[q.s] == '.' && q.s + 1 < |str| && IsDigit(str[q.s + 1])
    requires ScanNumber(str, q.s + 2, DigitValue(str[q.s + 1])) == (end, v) && v <= 255
    ensures end <= |str| && ScanQuad(str, q) == ScanQuad(str, Quad(end, q.d + 1, q.value[q.d := v]))
  {
    hide ScanNumber;
  }

  lemma {:induction false} ScanBackward(str: string, q: Quad, vals: seq<nat>)
    requires q.s <= |str| && 0 < q.d && q.d + |vals| == 4 && |q.value| == 4 && vals != []
    requires ScanQuad(str, q) == Quad(|str|, 4, q.value[..q.d] + vals)
    ensures DottedNumbers(str[q.s..], vals)
    decreases |vals|, 0
  {
    hide ScanNumber, IsNumber;
    assert q.s < |str| && str[q.s] == '.' && q.s + 1 < |str| && IsDigit(str[q.s + 1]);
    NumberIs(str, q.s + 1);
    var (end, v) := ScanNumber(str, q.s + 2, DigitValue(str[q.s + 1]));
    QuadStep(str, q, end, v);
    var next := Quad(end, q.d + 1, q.value[q.d := v]);
    KeepsFirst(str, next);
    hide ScanQuad;
    var all := q.value[..q.d] + vals;
    assert all[..next.d][q.d] == vals[0] && next.value[..next.d][q.d] == v;
    assert next.value[..next.d] + vals[1..] == all;
    ScanAccepts(str, next, vals[1..]);
    var text, n := str[q.s..], end - q.s;
    assert text[1..n] == str[q.s + 1..end] && text[n..] == str[end..];
    assert DottedAt(text, vals, n);
  }

  /** Numbers once read stay. */
  lemma {:induction false} KeepsFirst(str: string, q: Quad)
    requires q.s <= |str| && q.d <= 4 && |q.value| == 4
    ensures ScanQuad(str, q).value[..q.d] == q.value[..q.d]
    decreases 4 - q.d
  {
    hide ScanNumber;
    var r := ScanQuad(str, q);
    if r != q {
      var t := q.s + if q.d == 0 then 0 else 1;
      var (end, part) := ScanNumber(str, t + 1, DigitValue(str[t]));
      var next := Quad(end, q.d + 1, q.value[q.d := part]);
      KeepsFirst(str, next);
      assert r.value[..q.d] == r.value[..next.d][..q.d] == next.value[..next.d][..q.d];
    }
  }

  lemma FirstStep(str: string, end: nat, v: nat)
    requires str != "" && IsDigit(str[0]) && ScanNumber(str, 1, DigitValue(str[0])) == (end, v) && v <= 255
    ensures end <= |str| && ScanQuad(str, StartQuad()) == ScanQuad(str, Quad(end, 1, [v, 0, 0, 0]))
  {
    hide ScanNumber;
    assert StartQuad().value[0 := v] == [v, 0, 0, 0];
  }

  /** The texts read as an IPv4 address, and their value. */
  lemma AcceptsQuad(str: string, vals: Address4)
    ensures ScanQuad(str, StartQuad()) == Quad(|str|, 4, vals) <==> QuadText(str, vals)
  {
    if QuadText(str, vals) {
      var n: nat :| QuadAt(str, vals, n);
      QuadRead(str, vals, n);
    }
    if ScanQuad(str, StartQuad()) == Quad(|str|, 4, vals) {
      QuadFound(str, vals);
    }
  }

  lemma QuadRead(str: string, vals: Address4, n: nat)
    requires QuadAt(str, vals, n)
    ensures ScanQuad(str, StartQuad()) == Quad(|str|, 4, vals)
  {
    hide ScanNumber, IsNumber, ScanQuad, DottedNumbers;
    assert str[0..n] == str[..n];
    NoDigitFirst(str[n..], vals[1..]);
    NumberRead(str, 0, n, vals[0]);
    NumberSmall(str[..n], vals[0]);
    FirstStep(str, n, vals[0]);
    ScanAccepts(str, Quad(n, 1, [vals[0], 0, 0, 0]), vals[1..]);
    assert [vals[0], 0, 0, 0][..1] + vals[1..] == vals;
  }

  lemma FirstMust(str: string)
    requires ScanQuad(str, StartQuad()).d == 4
    ensures str != "" && IsDigit(str[0]) && ScanNumber(str, 1, DigitValue(str[0])).1 <= 255
  {
    hide ScanNumber;
  }

  lemma Rejoin(value: seq<nat>, vals: seq<nat>)
    requires |value| == |vals| == 4 && vals[..1] == value[..1]
    ensures vals[0] == value[0] && value[..1] + vals[1..] == vals
  {
    assert vals[0] == vals[..1][0] && value[0] == value[..1][0];
  }

  lemma QuadFound(str: string, vals: Address4)
    requires ScanQuad(str, StartQuad()) == Quad(|str|, 4, vals)
    ensures QuadText(str, vals)
  {
    hide *;
    FirstMust(str);
    NumberIs(str, 0);
    var (end, v) := ScanNumber(str, 1, DigitValue(str[0]));
    FirstStep(str, end, v);
    var next := Quad(end, 1, [v, 0, 0, 0]);
    KeepsFirst(str, next);
    Rejoin(next.value, vals);
    ScanAccepts(str, next, vals[1..]);
    assert str[0..end] == str[..end];
    QuadIs(str, vals, end);
  }

  lemma QuadIs(str: string, vals: Address4, n: nat)
    requires n <= |str| && IsNumber(str[..n], vals[0]) && DottedNumbers(str[n..], vals[1..])
    ensures QuadText(str, vals)
  {
    hide IsNumber, DottedNumbers;
    assert QuadAt(str, vals, n);
  }

  /** With a name service that knows nothing, exactly these texts parse. */
  lemma Parse4Exactly(str: string, vals: Address4)
    ensures Parse4(str, _ => None) == Some(vals) <==> QuadText(str, vals)
  {
    hide ScanQuad, QuadText;
    AcceptsQuad(str, vals);
  }

  // ----- In terms of characters

  /** The ten digits and what they stand for. */
  lemma DigitsAre()
    ensures forall n :: 0 <= n < 10 ==> DecimalChar(n) == "0123456789"[n] && DigitValue("0123456789"[n]) == n
    ensures forall c :: IsDigit(c) <==> c in "0123456789"
  {
    forall c ensures IsDigit(c) <==> c in "0123456789" {
      if IsDigit(c) {
        assert "0123456789"[c as int - '0' as int] == c;
      }
    }
  }

  /** A digit in front counts ten times as much as the one behind it, read and written. */
  lemma ThreeDigits(x: char, y: char, z: char)
    requires IsDigit(x) && IsDigit(y) && IsDigit(z)
    ensures DecimalValue(0, [x, y, z]) == 100 * DigitValue(x) + 10 * DigitValue(y) + DigitValue(z)
  {
    var a, b, c := DigitValue(x), DigitValue(y), DigitValue(z);
    hide DigitValue, IsDigit;
    assert [x, y, z][1..] == [y, z] && [y, z][1..] == [z] && [z][1..] == "";
    assert DecimalValue(100 * a + 10 * b + c, "") == 100 * a + 10 * b + c;
    assert DecimalValue(10 * a + b, [z]) == 100 * a + 10 * b + c;
    assert DecimalValue(a, [y, z]) == 100 * a + 10 * b + c;
  }

  lemma DecimalIs(n: nat, d: nat)
    requires d < 10
    ensures Decimal(d) == ["0123456789"[d]] && (n > 0 ==> Decimal(10 * n + d) == Decimal(n) + ["0123456789"[d]])
  {
    DigitsAre();
    assert (10 * n + d) / 10 == n && (10 * n + d) % 10 == d;
  }

  lemma DottedStep(x: nat, b: seq<nat>)
    ensures Dotted([x] + b) == "." + Decimal(x) + Dotted(b)
  {
    assert ([x] + b)[1..] == b;
  }

  /** The bytes of an address in order, with dots between them. */
  lemma Text4Is(a: nat, b: nat, c: nat, d: nat)
    ensures Text4([a, b, c, d]) == Decimal(a) + "." + Decimal(b) + "." + Decimal(c) + "." + Decimal(d)
  {
    assert Dotted([]) == "";
    hide Decimal, Dotted;
    DottedStep(d, []);
    DottedStep(c, [d]);
    DottedStep(b, [c, d]);
    assert [d] + [] == [d] && [c] + [d] == [c, d] && [b] + [c, d] == [b, c, d] && [a, b, c, d][1..] == [b, c, d];
    FourParts(Decimal(a), Decimal(b), Decimal(c), Decimal(d));
  }

  lemma FourParts(x: string, y: string, z: string, w: string)
    ensures x + ("." + y + ("." + z + ("." + w + ""))) == x + "." + y + "." + z + "." + w
  {
    assert "." + w + "" == "." + w;
    var t, u := "." + z + ("." + w), "." + y + ("." + z + ("." + w));
    assert t == "." + z + "." + w;
    assert u == "." + y + "." + z + "." + w;
  }
}
