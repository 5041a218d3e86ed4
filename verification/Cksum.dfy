/** The Internet checksum, computed in a 32-bit accumulator over words in the machine's own byte
    order, against the one's-complement sum of RFC 1071 over words in network order. */
module Cksum {

  type Byte = x: nat | x < 256
  type Word = x: nat | x < 0x1_0000
  type Uint32 = x: nat | x < 0x1_0000_0000

  // ----- RFC 1071

  /** One's-complement addition: the carry comes back in at the bottom. */
  function OnesAdd(a: Word, b: Word): Word {
    if a + b < 0x1_0000 then a + b else a + b - 0xFFFF
  }

  function OnesSum(words: seq<Word>): Word {
    if words == [] then 0 else OnesAdd(words[0], OnesSum(words[1..]))
  }

  /** The words of a buffer in network order, an odd last byte padded with zero. */
  function NetworkWords(b: seq<Byte>): seq<Word> {
    if b == [] then []
    else if |b| == 1 then [HostWord(false, b[0], 0)]
    else [HostWord(false, b[0], b[1])] + NetworkWords(b[2..])
  }

  /** Section 1: the complement of the one's-complement sum. */
  function Checksum(b: seq<Byte>): Word {
    0xFFFF - OnesSum(NetworkWords(b))
  }

  // ----- Host order

  /** Two bytes read as one word by a machine, and a network-order word as that machine sees it. */
  function HostWord(littleEndian: bool, first: Byte, second: Byte): Word {
    if littleEndian then first + 256 * second else 256 * first + second
  }

  function Swap(w: Word): (s: Word)
    ensures s == 0 <==> w == 0
  {
    w % 256 * 256 + w / 256
  }

  function Htons(littleEndian: bool, w: Word): Word {
    if littleEndian then Swap(w) else w
  }

  function HostWords(littleEndian: bool, b: seq<Byte>): seq<Word> {
    if b == [] then []
    else if |b| == 1 then [HostWord(littleEndian, b[0], 0)]
    else [HostWord(littleEndian, b[0], b[1])] + HostWords(littleEndian, b[2..])
  }

  function Swapped(words: seq<Word>): seq<Word> {
    if words == [] then [] else [Swap(words[0])] + Swapped(words[1..])
  }

  lemma {:induction false} HostWordsAre(littleEndian: bool, b: seq<Byte>)
    ensures HostWords(littleEndian, b) == if littleEndian then Swapped(NetworkWords(b)) else NetworkWords(b)
    decreases |b|
  {
    if |b| > 1 {
      HostWordsAre(littleEndian, b[2..]);
      SwapBytes(b[0], b[1]);
    } else if |b| == 1 {
      SwapBytes(b[0], 0);
    }
  }

  lemma SwapBytes(first: Byte, second: Byte)
    ensures Swap(256 * first + second) == first + 256 * second
  {
  }

  lemma SwapSwap(w: Word)
    ensures Swap(Swap(w)) == w
    ensures Swap(0xFFFF - w) == 0xFFFF - Swap(w)
  {
    var high, low := w / 256, w % 256;
    SwapBytes(high, low);
    SwapBytes(low, high);
    SwapBytes(255 - high, 255 - low);
    assert 0xFFFF - w == 256 * (255 - high) + (255 - low);
  }

  /** Swapping multiplies by 256, modulo 2^16 - 1. */
  lemma SwapScales(w: Word)
    ensures Swap(w) == 256 * w - 0xFFFF * (w / 256)
  {
  }

  lemma SameWord(v: Word, w: Word, k: int)
    requires v == w + 0xFFFF * k && (v == 0 <==> w == 0)
    ensures v == w
  {
  }

  lemma SwapAdd(a: Word, b: Word)
    ensures OnesAdd(Swap(a), Swap(b)) == Swap(OnesAdd(a, b))
  {
    hide Swap;
    var s, t := OnesAdd(Swap(a), Swap(b)), OnesAdd(a, b);
    SwapScales(a);
    SwapScales(b);
    SwapScales(t);
    var e := if s == Swap(a) + Swap(b) then 0 else 1;
    var f := if t == a + b then 0 else 1;
    SameWord(s, Swap(t), 256 * f + t / 256 - a / 256 - b / 256 - e);
  }

  /** Section 2(B): swapping the bytes of every word swaps the bytes of the sum. */
  lemma {:induction false} ByteOrderIndependence(words: seq<Word>)
    ensures OnesSum(Swapped(words)) == Swap(OnesSum(words))
  {
    if words != [] {
      ByteOrderIndependence(words[1..]);
      SwapAdd(words[0], OnesSum(words[1..]));
    }
  }

  // ----- Sums that keep their carries

  function Total(words: seq<Word>): nat {
    if words == [] then 0 else words[0] + Total(words[1..])
  }

  /** The one's-complement value of a sum. */
  function Reduced(n: nat): (w: Word)
    ensures w == 0 <==> n == 0
  {
    if n == 0 then 0 else (n - 1) % 0xFFFF + 1
  }

  lemma ReducedIs(n: nat, w: Word)
    requires n % 0xFFFF == w % 0xFFFF && (n == 0 <==> w == 0)
    ensures Reduced(n) == w
  {
  }

  lemma ReducedMod(n: nat)
    ensures Reduced(n) % 0xFFFF == n % 0xFFFF
  {
  }

  lemma ReducedAdd(m: nat, n: nat)
    ensures Reduced(m + Reduced(n)) == Reduced(m + n)
  {
    ReducedMod(n);
    ReducedMod(m + n);
    ModAdd(m, Reduced(n), n);
    ReducedIs(m + Reduced(n), Reduced(m + n));
  }

  lemma ModAdd(m: nat, a: nat, b: nat)
    requires a % 0xFFFF == b % 0xFFFF
    ensures (m + a) % 0xFFFF == (m + b) % 0xFFFF
  {
  }

  lemma OnesAddReduced(a: Word, b: Word)
    ensures OnesAdd(a, b) == Reduced(a + b)
  {
  }

  lemma {:induction false} OnesSumReduced(words: seq<Word>)
    ensures OnesSum(words) == Reduced(Total(words))
  {
    if words != [] {
      OnesSumReduced(words[1..]);
      OnesAddReduced(words[0], OnesSum(words[1..]));
      ReducedAdd(words[0], Total(words[1..]));
    }
  }

  /** Folding the high half of an accumulator into the low half twice. */
  function Fold(sum: Uint32): Word {
    var once := sum % 0x1_0000 + sum / 0x1_0000;
    (once + once / 0x1_0000) % 0x1_0000
  }

  lemma FoldReduces(sum: Uint32)
    ensures Fold(sum) == Reduced(sum)
  {
    var high, low := sum / 0x1_0000, sum % 0x1_0000;
    var once := low + high;
    assert sum == 0xFFFF * high + once;
    var twice := (once + once / 0x1_0000) % 0x1_0000;
    assert twice == if once < 0x1_0000 then once else once - 0xFFFF;
    ReducedIs(sum, twice);
  }

  // ----- The accumulator

  lemma {:induction false} TotalBound(words: seq<Word>)
    ensures Total(words) <= 0xFFFF * |words|
  {
    if words != [] {
      TotalBound(words[1..]);
    }
  }

  lemma {:induction false} HostWordsLength(littleEndian: bool, b: seq<Byte>)
    ensures |HostWords(littleEndian, b)| == (|b| + 1) / 2
    decreases |b|
  {
    if |b| > 1 {
      HostWordsLength(littleEndian, b[2..]);
    }
  }

  /** Up to 131074 bytes cannot overflow 32 bits. */
  lemma NoOverflow(littleEndian: bool, b: seq<Byte>)
    requires |b| <= 131074
    ensures Total(HostWords(littleEndian, b)) < 0x1_0000_0000
  {
    HostWordsLength(littleEndian, b);
    TotalBound(HostWords(littleEndian, b));
  }

  function AllOnes(n: nat): seq<Byte> {
    seq(n, _ => 0xFF)
  }

  lemma {:induction false} TotalOnes(littleEndian: bool, n: nat)
    ensures Total(HostWords(littleEndian, AllOnes(n))) >= 0xFFFF * (n / 2) + n % 2
  {
    var b := AllOnes(n);
    if n > 1 {
      assert b[2..] == AllOnes(n - 2);
      TotalOnes(littleEndian, n - 2);
    } else if n == 1 {
      var x := HostWord(littleEndian, 0xFF, 0);
      assert HostWords(littleEndian, b) == [x] && [x][1..] == [] && Total([x]) == x;
    }
  }

  /** One byte more can overflow. */
  lemma OverflowBeyond(littleEndian: bool)
    ensures Total(HostWords(littleEndian, AllOnes(131075))) >= 0x1_0000_0000
  {
    TotalOnes(littleEndian, 131075);
  }

  /** The sum as the machine reads it gives the checksum as the machine reads it. */
  lemma HostSum(littleEndian: bool, b: seq<Byte>)
    ensures 0xFFFF - Reduced(Total(HostWords(littleEndian, b))) == Htons(littleEndian, Checksum(b))
  {
    var net := NetworkWords(b);
    HostWordsAre(littleEndian, b);
    OnesSumReduced(HostWords(littleEndian, b));
    if littleEndian {
      ByteOrderIndependence(net);
      SwapSwap(OnesSum(net));
    }
  }

  /** Dropping carries changes the result: 2^32 is 1 modulo 2^16 - 1. */
  lemma WrapShows(n: nat)
    requires n < 0x4000 * 0x1_0000_0000
    ensures Reduced(n % 0x1_0000_0000) == Reduced(n) <==> n < 0x1_0000_0000
  {
    var k, m := n / 0x1_0000_0000, n % 0x1_0000_0000;
    assert n == m + k + 0xFFFF * (0x1_0001 * k);
    ReducedMod(n);
    ReducedMod(m);
    Multiples(m + k, 0x1_0001 * k);
    if k > 0 {
      Apart(m, k);
    }
  }

  lemma Multiples(x: nat, q: nat)
    ensures (x + 0xFFFF * q) % 0xFFFF == x % 0xFFFF
  {
  }

  lemma Apart(m: nat, k: nat)
    requires 0 < k < 0xFFFF
    ensures (m + k) % 0xFFFF != m % 0xFFFF
  {
  }

  /** The words still to be added, modulo 2^32. */
  ghost predicate Adds(littleEndian: bool, b: seq<Byte>, w: nat, sum: nat) {
    w <= |b| && (sum + Total(HostWords(littleEndian, b[w..]))) % 0x1_0000_0000
        == Total(HostWords(littleEndian, b)) % 0x1_0000_0000
  }

  lemma AddsStart(littleEndian: bool, b: seq<Byte>)
    ensures Adds(littleEndian, b, 0, 0)
  {
    assert b[0..] == b;
  }

  lemma AddsWord(littleEndian: bool, b: seq<Byte>, w: nat, sum: nat)
    requires w + 1 < |b| && Adds(littleEndian, b, w, sum)
    ensures Adds(littleEndian, b, w + 2, (sum + HostWord(littleEndian, b[w], b[w + 1])) % 0x1_0000_0000)
  {
    var c := b[w..];
    assert c[2..] == b[w + 2..];
    assert HostWords(littleEndian, c) == [HostWord(littleEndian, c[0], c[1])] + HostWords(littleEndian, c[2..]);
    ModSum(sum, HostWord(littleEndian, b[w], b[w + 1]), Total(HostWords(littleEndian, b[w + 2..])));
  }

  lemma AddsByte(littleEndian: bool, b: seq<Byte>, w: nat, sum: nat)
    requires w + 1 == |b| && Adds(littleEndian, b, w, sum)
    ensures Adds(littleEndian, b, w + 1, (sum + HostWord(littleEndian, b[w], 0)) % 0x1_0000_0000)
  {
    var c := b[w..];
    assert b[w + 1..] == [];
    var x := HostWord(littleEndian, b[w], 0);
    assert HostWords(littleEndian, c) == [x] && [x][1..] == [];
    assert Total([x]) == x;
    ModSum(sum, x, 0);
  }

  lemma ModSum(a: nat, b: nat, c: nat)
    ensures ((a + b) % 0x1_0000_0000 + c) % 0x1_0000_0000 == (a + (b + c)) % 0x1_0000_0000
  {
  }

  lemma AddsEnd(littleEndian: bool, b: seq<Byte>, sum: Uint32)
    requires Adds(littleEndian, b, |b|, sum)
    ensures sum == Total(HostWords(littleEndian, b)) % 0x1_0000_0000
  {
    assert b[|b|..] == [];
  }

  lemma TotalSmall(littleEndian: bool, b: seq<Byte>)
    requires |b| <= 0x7FFF_FFFF
    ensures Total(HostWords(littleEndian, b)) < 0x4000 * 0x1_0000_0000
  {
    HostWordsLength(littleEndian, b);
    TotalBound(HostWords(littleEndian, b));
  }

  /** `click_in_cksum`: right exactly when the words of the buffer add up to less than 2^32,
      which every buffer of up to 131074 bytes does. */
  method InCksum(littleEndian: bool, addr: seq<Byte>) returns (answer: Word)
    requires |addr| <= 0x7FFF_FFFF
    ensures answer == Htons(littleEndian, Checksum(addr)) <==> Total(HostWords(littleEndian, addr)) < 0x1_0000_0000
    ensures |addr| <= 131074 ==> answer == Htons(littleEndian, Checksum(addr))
  {
    hide *;
    var nleft, w, sum: Uint32 := |addr|, 0, 0;
    ghost var all := Total(HostWords(littleEndian, addr));
    AddsStart(littleEndian, addr);
    while nleft > 1
      invariant w + nleft == |addr| && nleft >= 0
      invariant Adds(littleEndian, addr, w, sum)
    {
      AddsWord(littleEndian, addr, w, sum);
      sum := (sum + HostWord(littleEndian, addr[w], addr[w + 1])) % 0x1_0000_0000;
      w, nleft := w + 2, nleft - 2;
    }
    if nleft == 1 {
      AddsByte(littleEndian, addr, w, sum);
      answer := HostWord(littleEndian, addr[w], 0);
      sum := (sum + answer) % 0x1_0000_0000;
    }
    AddsEnd(littleEndian, addr, sum);
    FoldReduces(sum);
    answer := 0xFFFF - Fold(sum);
    HostSum(littleEndian, addr);
    TotalSmall(littleEndian, addr);
    WrapShows(all);
    if |addr| <= 131074 {
      NoOverflow(littleEndian, addr);
    }
  }

  // ----- Pseudo-header

  /** Section 3.1 of RFC 9293: addresses, a zero byte, the protocol and the segment length. */
  function PseudoHeader(src: seq<Byte>, dst: seq<Byte>, proto: Byte, length: Word): seq<Byte> {
    src + dst + [0, proto, length / 256, length % 256]
  }

  /** Four bytes in memory as a machine reads them into a 32-bit word. */
  function HostLong(littleEndian: bool, b: seq<Byte>): Uint32
    requires |b| == 4
  {
    if littleEndian then HostWord(true, b[0], b[1]) + 0x1_0000 * HostWord(true, b[2], b[3])
    else 0x1_0000 * HostWord(false, b[0], b[1]) + HostWord(false, b[2], b[3])
  }

  lemma {:induction false} HostWordsAppend(littleEndian: bool, a: seq<Byte>, b: seq<Byte>)
    requires |a| % 2 == 0
    ensures HostWords(littleEndian, a + b) == HostWords(littleEndian, a) + HostWords(littleEndian, b)
    decreases |a|
  {
    if a == [] {
      assert a + b == b;
    } else {
      assert (a + b)[2..] == a[2..] + b;
      HostWordsAppend(littleEndian, a[2..], b);
    }
  }

  lemma {:induction false} TotalAppend(v: seq<Word>, w: seq<Word>)
    ensures Total(v + w) == Total(v) + Total(w)
  {
    if v == [] {
      assert v + w == w;
    } else {
      assert (v + w)[1..] == v[1..] + w;
      TotalAppend(v[1..], w);
    }
  }

  lemma TotalOfTwo(littleEndian: bool, a: Byte, b: Byte, rest: seq<Byte>)
    ensures Total(HostWords(littleEndian, [a, b] + rest))
        == HostWord(littleEndian, a, b) + Total(HostWords(littleEndian, rest))
  {
    assert ([a, b] + rest)[2..] == rest;
  }

  lemma TotalOfFour(littleEndian: bool, b: seq<Byte>)
    requires |b| == 4
    ensures var v := HostLong(littleEndian, b);
            Total(HostWords(littleEndian, b)) == v % 0x1_0000 + v / 0x1_0000
  {
    assert b == [b[0], b[1]] + ([b[2], b[3]] + []);
    TotalOfTwo(littleEndian, b[0], b[1], [b[2], b[3]] + []);
    TotalOfTwo(littleEndian, b[2], b[3], []);
  }

  lemma HtonsIs(littleEndian: bool, w: Word)
    ensures Htons(littleEndian, w) == HostWord(littleEndian, w / 256, w % 256)
  {
    SwapBytes(w / 256, w % 256);
  }

  lemma PseudoTotal(littleEndian: bool, src: seq<Byte>, dst: seq<Byte>, proto: Byte, length: Word)
    requires |src| == 4 && |dst| == 4
    ensures var s, d := HostLong(littleEndian, src), HostLong(littleEndian, dst);
            Total(HostWords(littleEndian, PseudoHeader(src, dst, proto, length))) ==
              (s % 0x1_0000 + s / 0x1_0000) + (d % 0x1_0000 + d / 0x1_0000) + Htons(littleEndian, length)
                  + Htons(littleEndian, proto)
  {
    hide Htons, HostWords, Total;
    var tail := [0, proto] + ([length / 256, length % 256] + []);
    assert PseudoHeader(src, dst, proto, length) == src + (dst + tail);
    HostWordsAppend(littleEndian, src, dst + tail);
    HostWordsAppend(littleEndian, dst, tail);
    TotalAppend(HostWords(littleEndian, src), HostWords(littleEndian, dst + tail));
    TotalAppend(HostWords(littleEndian, dst), HostWords(littleEndian, tail));
    TotalOfFour(littleEndian, src);
    TotalOfFour(littleEndian, dst);
    TotalOfTail(littleEndian, proto, length);
  }

  lemma TotalOfTail(littleEndian: bool, proto: Byte, length: Word)
    ensures Total(HostWords(littleEndian, [0, proto] + ([length / 256, length % 256] + []))) ==
              Htons(littleEndian, length) + Htons(littleEndian, proto)
  {
    TotalOfTwo(littleEndian, 0, proto, [length / 256, length % 256] + []);
    TotalOfTwo(littleEndian, length / 256, length % 256, []);
    HtonsIs(littleEndian, length);
    HtonsIs(littleEndian, proto);
    assert Total(HostWords(littleEndian, [])) == 0;
  }

  /** `click_in_cksum_pseudohdr_raw` on addresses as read from memory; `htons` keeps the low
      16 bits of the length and the protocol. */
  method PseudohdrRaw(littleEndian: bool, csum0: Uint32, src: Uint32, dst: Uint32, proto: int, packetLen: int)
      returns (r: Word)
    requires csum0 <= 0xFFFF
    ensures r == 0xFFFF - Reduced((0xFFFF - csum0) + (src % 0x1_0000 + src / 0x1_0000)
        + (dst % 0x1_0000 + dst / 0x1_0000)
                                  + Htons(littleEndian, packetLen % 0x1_0000) + Htons(littleEndian, proto % 0x1_0000))
  {
    hide Fold, Reduced, Htons;
    var csum: Uint32 := 0xFFFF - csum0;
    csum := csum + (src % 0x1_0000 + src / 0x1_0000);
    csum := csum + (dst % 0x1_0000 + dst / 0x1_0000);
    csum := csum + (Htons(littleEndian, packetLen % 0x1_0000) + Htons(littleEndian, proto % 0x1_0000));
    FoldReduces(csum);
    FoldLow(csum);
    csum := csum % 0x1_0000 + csum / 0x1_0000;
    r := 0xFFFF - (csum + csum / 0x1_0000) % 0x1_0000;
  }

  lemma FoldLow(sum: Uint32)
    ensures var once := sum % 0x1_0000 + sum / 0x1_0000; Fold(sum) == (once + once / 0x1_0000) % 0x1_0000
  {
  }

  /** The checksum of a payload, carried through the pseudo-header function, is the checksum of
      the pseudo-header followed by the payload. */
  method PseudoChecksum(littleEndian: bool, payload: seq<Byte>, src: seq<Byte>, dst: seq<Byte>, proto: Byte,
      length: Word)
    returns (r: Word)
    requires |payload| <= 131074 && |src| == 4 && |dst| == 4
    ensures r == Htons(littleEndian, Checksum(PseudoHeader(src, dst, proto, length) + payload))
  {
    hide *;
    var csum := InCksum(littleEndian, payload);
    r := PseudohdrRaw(littleEndian, csum, HostLong(littleEndian, src), HostLong(littleEndian, dst), proto, length);
    ghost var header := PseudoHeader(src, dst, proto, length);
    PseudoTotal(littleEndian, src, dst, proto, length);
    PseudoEven(src, dst, proto, length);
    HeaderThenPayload(littleEndian, header, payload);
  }

  lemma PseudoEven(src: seq<Byte>, dst: seq<Byte>, proto: Byte, length: Word)
    requires |src| == 4 && |dst| == 4
    ensures |PseudoHeader(src, dst, proto, length)| == 12
  {
  }

  lemma HeaderThenPayload(littleEndian: bool, header: seq<Byte>, payload: seq<Byte>)
    requires |header| % 2 == 0
    ensures var csum := Htons(littleEndian, Checksum(payload));
            0xFFFF - Reduced(0xFFFF - csum + Total(HostWords(littleEndian, header)))
                == Htons(littleEndian, Checksum(header + payload))
  {
    hide *;
    var h, p := HostWords(littleEndian, header), HostWords(littleEndian, payload);
    HostSum(littleEndian, payload);
    HostSum(littleEndian, header + payload);
    HostWordsAppend(littleEndian, header, payload);
    TotalAppend(h, p);
    ReducedAdd(Total(h), Total(p));
  }

  // ----- Verifying

  lemma {:induction false} TotalUpdate(words: seq<Word>, k: nat, w: Word)
    requires k < |words|
    ensures Total(words[k := w]) == Total(words) - words[k] + w
  {
    if k > 0 {
      assert words[k := w][1..] == words[1..][k - 1 := w];
      TotalUpdate(words[1..], k - 1, w);
    } else {
      assert words[k := w][1..] == words[1..];
    }
  }

  /** Section 1: a message that carries its own checksum in a field that was zero sums to all
      ones. */
  lemma ChecksumVerifies(words: seq<Word>, k: nat)
    requires k < |words| && words[k] == 0
    ensures OnesSum(words[k := 0xFFFF - OnesSum(words)]) == 0xFFFF
  {
    hide OnesSum, Total;
    var c: Word := 0xFFFF - OnesSum(words);
    OnesSumReduced(words);
    OnesSumReduced(words[k := c]);
    TotalUpdate(words, k, c);
    var n := Total(words);
    ReducedMod(n);
    FullSum(n, Reduced(n));
  }

  lemma FullSum(n: nat, r: Word)
    requires r % 0xFFFF == n % 0xFFFF && (r == 0 <==> n == 0)
    ensures Reduced(n + (0xFFFF - r)) == 0xFFFF
  {
    ReducedIs(n + (0xFFFF - r), 0xFFFF);
  }

  // ----- Byte by byte

  /** Each pair of bytes is a word with its first byte in front; a last byte alone is a word with a zero
      behind it. */
  lemma NetworkWordsAre(a: Byte, b: Byte, rest: seq<Byte>)
    ensures NetworkWords([]) == [] && NetworkWords([a]) == [256 * a]
    ensures NetworkWords([a, b] + rest) == [256 * a + b] + NetworkWords(rest)
  {
    assert ([a, b] + rest)[2..] == rest;
  }

  /** Two words are added with their carry put back in at the bottom. */
  lemma TwoWordChecksum(a: Byte, b: Byte, c: Byte, d: Byte)
    ensures var sum := (256 * a + b) + (256 * c + d);
            Checksum([a, b, c, d]) == 0xFFFF - if sum < 0x1_0000 then sum else sum % 0x1_0000 + 1
    ensures Checksum([a, b]) == 0xFFFF - (256 * a + b) && Checksum([a]) == 0xFFFF - 256 * a && Checksum([]) == 0xFFFF
  {
    NetworkWordsAre(a, b, [c, d]);
    NetworkWordsAre(a, b, []);
    NetworkWordsAre(c, d, []);
    assert [a, b] + [c, d] == [a, b, c, d] && [a, b] + [] == [a, b] && [c, d] + [] == [c, d];
    hide NetworkWords, OnesSum;
    var x, y := 256 * a + b, 256 * c + d;
    assert [x] + ([y] + []) == [x, y] && [y] + [] == [y] && [x] + [] == [x];
    SumOfTwo(x, y);
    SumOfTwo(256 * a, 0);
  }

  lemma SumOfTwo(x: Word, y: Word)
    ensures OnesSum([]) == 0 && OnesSum([x]) == x
    ensures OnesSum([x, y]) == if x + y < 0x1_0000 then x + y else (x + y) % 0x1_0000 + 1
  {
    assert [x, y][1..] == [y] && [y][1..] == [] && [x][1..] == [];
    assert OnesSum([y]) == y;
  }

  /** The example of section 3 of RFC 1071: 00 01 f2 03 f4 f5 f6 f7 add up to ddf2. */
  lemma ExampleSum()
    ensures Checksum([0x00, 0x01, 0xf2, 0x03, 0xf4, 0xf5, 0xf6, 0xf7]) == 0xFFFF - 0xddf2
  {
    NetworkWordsAre(0xf6, 0xf7, []);
    NetworkWordsAre(0xf4, 0xf5, [0xf6, 0xf7]);
    NetworkWordsAre(0xf2, 0x03, [0xf4, 0xf5, 0xf6, 0xf7]);
    NetworkWordsAre(0x00, 0x01, [0xf2, 0x03, 0xf4, 0xf5, 0xf6, 0xf7]);
    hide NetworkWords;
    var w: seq<Word> := [0x0001, 0xf203, 0xf4f5, 0xf6f7];
    assert NetworkWords([0x00, 0x01, 0xf2, 0x03, 0xf4, 0xf5, 0xf6, 0xf7]) == w;
    assert w[1..] == [0xf203, 0xf4f5, 0xf6f7] && [0xf203, 0xf4f5, 0xf6f7][1..] == [0xf4f5, 0xf6f7];
    assert [0xf4f5, 0xf6f7][1..] == [0xf6f7] && [0xf6f7][1..] == [];
    assert OnesSum([0xf6f7]) == 0xf6f7;
    assert OnesSum([0xf4f5, 0xf6f7]) == 0xebed;
    assert OnesSum([0xf203, 0xf4f5, 0xf6f7]) == 0xddf1;
  }

  /** The twelve bytes of a pseudo-header. */
  lemma PseudoHeaderIs(src: seq<Byte>, dst: seq<Byte>, proto: Byte, length: Word)
    requires |src| == 4 && |dst| == 4
    ensures var h := PseudoHeader(src, dst, proto, length);
            && |h| == 12 && h[..4] == src && h[4..8] == dst && h[8] == 0 && h[9] == proto
            && 256 * h[10] as int + h[11] as int == length
  {
  }

  /** How the two kinds of machine see a word in network order. */
  lemma HostOrder(a: Byte, b: Byte)
    ensures HostWord(true, a, b) == a + 256 * b && HostWord(false, a, b) == 256 * a + b
    ensures Htons(true, 256 * a + b) == 256 * b + a && Htons(false, 256 * a + b) == 256 * a + b
  {
  }
}
