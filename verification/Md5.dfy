/** MD5 streaming.  The compression function is a parameter; what is modelled is how the state
    cuts a message into blocks, counts its bits and pads it. */
module Md5 {

  type Byte = x: nat | x < 256
  type Word = x: nat | x < 0x1_0000_0000

  datatype Words = Words(a: Word, b: Word, c: Word, d: Word)

  type Compress = (Words, seq<Byte>) -> Words

  const Initial: Words := Words(0x6745_2301, 0xefcd_ab89, 0x98ba_dcfe, 0x1032_5476)

  const MaxInt := 0x7FFF_FFFF

  // ----- RFC 1321: folding the compression function over a padded message

  /** The compression function folded over the whole blocks of a message. */
  function Folded(f: Compress, m: seq<Byte>): Words
    requires |m| % 64 == 0
  {
    if m == [] then Initial else f(Folded(f, m[..|m| - 64]), m[|m| - 64..])
  }

  /** The part of a message that makes up whole blocks, and what is left. */
  function Whole(m: seq<Byte>): (w: seq<Byte>)
    ensures |w| % 64 == 0 && |w| <= |m| < |w| + 64
  {
    m[..|m| - |m| % 64]
  }

  function Rest(m: seq<Byte>): (r: seq<Byte>)
    ensures Whole(m) + r == m && |r| < 64
  {
    m[|m| - |m| % 64..]
  }

  lemma OneCloser(n: nat)
    ensures n % 64 == 56 <==> (56 - n) % 64 == 0
    ensures n % 64 != 56 ==> (56 - n) % 64 == (56 - (n + 1)) % 64 + 1
  {
  }

  /** Section 3.1: zero bytes until the length is 56 modulo 64. */
  function ZeroFill(m: seq<Byte>): seq<Byte>
    decreases (56 - |m|) % 64
  {
    if |m| % 64 == 56 then m else OneCloser(|m|); ZeroFill(m + [0])
  }

  /** A number as `k` bytes, low-order byte first. */
  function LittleEndian(n: nat, k: nat): (b: seq<Byte>)
    ensures |b| == k
  {
    if k == 0 then [] else [n % 256] + LittleEndian(n / 256, k - 1)
  }

  /** Section 3.2: the padded message ends with its bit length modulo 2^64. */
  function Padded(m: seq<Byte>): seq<Byte> {
    ZeroFill(m + [0x80]) + LittleEndian(8 * |m| % 0x1_0000_0000_0000_0000, 8)
  }

  /** Words written out one after the other, each low-order byte first. */
  function Bytes(words: seq<Word>): (b: seq<Byte>)
    ensures |b| == 4 * |words|
  {
    if words == [] then [] else LittleEndian(words[0], 4) + Bytes(words[1..])
  }

  /** Section 3.5: the digest is the four words. */
  function Digest(w: Words): seq<Byte> {
    Bytes([w.a, w.b, w.c, w.d])
  }

  function Zeros(n: nat): (z: seq<Byte>)
    ensures |z| == n
  {
    seq(n, _ => 0)
  }

  lemma {:induction false} ZeroFillLength(m: seq<Byte>, n: nat)
    requires n == (56 - |m|) % 64
    ensures ZeroFill(m) == m + Zeros(n)
    ensures |ZeroFill(m)| % 64 == 56
    decreases n
  {
    OneCloser(|m|);
    if n == 0 {
      assert m + Zeros(0) == m;
    } else {
      ZeroFillLength(m + [0], n - 1);
      assert m + [0] + Zeros(n - 1) == m + Zeros(n);
    }
  }

  lemma PaddedBlocks(m: seq<Byte>)
    ensures |Padded(m)| % 64 == 0
  {
    hide ZeroFill, LittleEndian;
    var z := ZeroFill(m + [0x80]);
    ZeroFillLength(m + [0x80], (56 - |m + [0x80]|) % 64);
    assert |Padded(m)| == |z| + 8;
    hide Padded;
    EightMore(|z|);
  }

  lemma EightMore(n: nat)
    requires n % 64 == 56
    ensures (n + 8) % 64 == 0
  {
  }

  lemma FoldBlock(f: Compress, m: seq<Byte>, block: seq<Byte>)
    requires |m| % 64 == 0 && |block| == 64
    ensures Folded(f, m + block) == f(Folded(f, m), block)
  {
    var all := m + block;
    assert all[..|all| - 64] == m && all[|all| - 64..] == block;
  }

  // ----- Counting bits in two words

  ghost predicate Counts(count0: Word, count1: Word, n: nat) {
    count0 + 0x1_0000_0000 * count1 == 8 * n % 0x1_0000_0000_0000_0000
  }

  lemma CountsOffset(count0: Word, count1: Word, n: nat)
    requires Counts(count0, count1, n)
    ensures count0 / 8 % 64 == n % 64
  {
    var q := 8 * n / 0x1_0000_0000_0000_0000;
    var k := 0x80_0000 * count1 + 0x80_0000_0000_0000 * q;
    assert count0 == 8 * (n - 64 * k);
    Mod64(n, k);
  }

  lemma Mod64(n: nat, k: nat)
    requires n >= 64 * k
    ensures 8 * (n - 64 * k) / 8 % 64 == n % 64
  {
  }

  lemma BitsOf(n: nat)
    ensures 8 * n == 8 * n % 0x1_0000_0000 + 0x1_0000_0000 * (n / 0x2000_0000)
  {
  }

  lemma Modulo(n: nat, q: nat, r: nat)
    requires n == r + 0x1_0000_0000_0000_0000 * q && r < 0x1_0000_0000_0000_0000
    ensures n % 0x1_0000_0000_0000_0000 == r
  {
  }

  lemma CountsAdd(count0: Word, count1: Word, n: nat, nbytes: nat, sum0: Word, sum1: Word)
    requires Counts(count0, count1, n) && 0 < nbytes <= MaxInt
    requires sum0 == (count0 + 8 * nbytes % 0x1_0000_0000) % 0x1_0000_0000
    requires sum1 == (count1 + nbytes / 0x2000_0000 + if sum0 < 8 * nbytes % 0x1_0000_0000
        then 1 else 0) % 0x1_0000_0000
    ensures Counts(sum0, sum1, n + nbytes)
  {
    var nbits, high := 8 * nbytes % 0x1_0000_0000, nbytes / 0x2000_0000;
    assert 8 * nbytes == nbits + 0x1_0000_0000 * high by {
      BitsOf(nbytes);
    }
    var carry := if sum0 < nbits then 1 else 0;
    assert count0 + nbits == sum0 + 0x1_0000_0000 * carry;
    var over := (count1 + high + carry) / 0x1_0000_0000;
    var q := 8 * n / 0x1_0000_0000_0000_0000;
    assert 8 * (n + nbytes) == sum0 + 0x1_0000_0000 * sum1 + 0x1_0000_0000_0000_0000 * (q + over);
    Modulo(8 * (n + nbytes), q + over, sum0 + 0x1_0000_0000 * sum1);
  }

  // ----- Bytes of words

  function Power256(i: nat): (p: nat)
    ensures p > 0
  {
    if i == 0 then 1 else 256 * Power256(i - 1)
  }

  lemma FourBytes(w: Word)
    ensures LittleEndian(w, 4) == [w % 256, w / 0x100 % 256, w / 0x1_0000 % 256, w / 0x100_0000 % 256]
  {
    assert w / 256 / 256 == w / 0x1_0000 && w / 256 / 256 / 256 == w / 0x100_0000;
    assert LittleEndian(w / 0x100_0000, 1) == [w / 0x100_0000 % 256];
    assert LittleEndian(w / 0x1_0000, 2) == [w / 0x1_0000 % 256] + LittleEndian(w / 0x100_0000, 1);
    assert LittleEndian(w / 0x100, 3) == [w / 0x100 % 256] + LittleEndian(w / 0x1_0000, 2);
  }

  lemma {:induction false} LittleEndianSplit(low: nat, high: nat, k: nat, j: nat)
    requires low < Power256(k)
    ensures LittleEndian(low + Power256(k) * high, k + j) == LittleEndian(low, k) + LittleEndian(high, j)
  {
    assert LittleEndian(low, 0) == [] && Power256(0) == 1;
    assert k > 0 ==> Power256(k) == 256 * Power256(k - 1);
    hide LittleEndian, Power256;
    if k == 0 {
      assert [] + LittleEndian(high, j) == LittleEndian(high, j);
    } else {
      var p := Power256(k - 1);
      Scaled(p, high);
      LowByte(low, p * high);
      LittleEndianSplit(low / 256, high, k - 1, j);
      LittleEndianStep(low + Power256(k) * high, k + j);
      LittleEndianStep(low, k);
      assert [low % 256] + (LittleEndian(low / 256, k - 1) + LittleEndian(high, j)) ==
             ([low % 256] + LittleEndian(low / 256, k - 1)) + LittleEndian(high, j);
    }
  }

  lemma Scaled(p: nat, high: nat)
    ensures (256 * p) * high == 256 * (p * high)
  {
  }

  lemma LowByte(low: nat, x: nat)
    ensures (low + 256 * x) % 256 == low % 256 && (low + 256 * x) / 256 == low / 256 + x
  {
  }

  lemma LittleEndianStep(n: nat, k: nat)
    requires k > 0
    ensures LittleEndian(n, k) == [n % 256] + LittleEndian(n / 256, k - 1)
  {
  }

  /** The low word's bytes come first, then the high word's. */
  lemma TwoWords(low: Word, high: Word)
    ensures LittleEndian(low + 0x1_0000_0000 * high, 8) == LittleEndian(low, 4) + LittleEndian(high, 4)
  {
    assert Power256(4) == 0x1_0000_0000;
    LittleEndianSplit(low, high, 4, 4);
  }

  /** Byte `k` of a word: a shift by `8 * k` bits and a truncation. */
  function ByteOf(w: Word, k: nat): Byte {
    (match k case 0 => w case 1 => w / 0x100 case 2 => w / 0x1_0000 case _ => w / 0x100_0000) % 256
  }

  lemma {:induction false} BytesAt(words: seq<Word>, i: nat)
    requires i < 4 * |words|
    ensures Bytes(words)[i] == ByteOf(words[i / 4], i % 4)
  {
    hide LittleEndian;
    if i < 4 {
      FourBytes(words[0]);
    } else {
      BytesAt(words[1..], i - 4);
      assert (i - 4) / 4 == i / 4 - 1 && (i - 4) % 4 == i % 4;
    }
  }

  lemma LengthBytes(count0: Word, count1: Word, n: nat)
    requires Counts(count0, count1, n)
    ensures Bytes([count0, count1]) == LittleEndian(8 * n % 0x1_0000_0000_0000_0000, 8)
  {
    hide LittleEndian;
    TwoWords(count0, count1);
    assert Bytes([count1]) == LittleEndian(count1, 4) + Bytes([]);
    assert [count0, count1][1..] == [count1];
  }

  lemma PadLength(n: nat, count0: Word, k: nat)
    requires count0 / 8 % 64 == n % 64 && k == (55 - count0 / 8) % 64 + 1
    ensures 1 <= k <= 64 && k - 1 == (56 - (n + 1)) % 64 && (n + k) % 64 == 56
  {
    ModDifference(count0 / 8);
    ModDifference(n);
    var r, q := n % 64, n / 64;
    assert n == 64 * q + r;
    if r <= 55 {
      assert k == 56 - r && n + k == 64 * q + 56;
    } else {
      assert k == 120 - r && n + k == 64 * (q + 1) + 56;
    }
  }

  lemma ModDifference(x: nat)
    ensures (55 - x) % 64 == if x % 64 <= 55 then 55 - x % 64 else 119 - x % 64
  {
    var r, q := x % 64, x / 64;
    assert 55 - x == 64 * (-q) + (55 - r);
    assert 55 - x == 64 * (-q - 1) + (119 - r);
  }

  lemma PadBytes(m: seq<Byte>, k: nat)
    requires 1 <= k <= 64 && k - 1 == (56 - (|m| + 1)) % 64
    ensures m + ([0x80] + Zeros(63))[..k] == ZeroFill(m + [0x80])
  {
    hide ZeroFill;
    ZeroFillLength(m + [0x80], k - 1);
    assert ([0x80] + Zeros(63))[..k] == [0x80] + Zeros(k - 1);
    assert m + ([0x80] + Zeros(k - 1)) == m + [0x80] + Zeros(k - 1);
  }

  lemma PaddedIs(m: seq<Byte>, k: nat, length: seq<Byte>)
    requires 1 <= k <= 64 && k - 1 == (56 - (|m| + 1)) % 64
    requires length == LittleEndian(8 * |m| % 0x1_0000_0000_0000_0000, 8)
    ensures m + ([0x80] + Zeros(63))[..k] + length == Padded(m)
  {
    hide LittleEndian, ZeroFill;
    PadBytes(m, k);
  }

  // ----- Cutting a message

  /** What the buffer and the fold say about a message. */
  ghost predicate Holds(f: Compress, abcd: Words, buf: seq<Byte>, m: seq<Byte>) {
    |buf| == 64 && abcd == Folded(f, Whole(m)) && buf[..|m| % 64] == Rest(m)
  }

  lemma HoldsNothing(f: Compress, buf: seq<Byte>)
    requires |buf| == 64
    ensures Holds(f, Initial, buf, [])
  {
    assert Whole([]) == [];
  }

  /** Bytes that stay within the block in the buffer. */
  lemma StillPartial(f: Compress, abcd: Words, buf: seq<Byte>, buf': seq<Byte>, m: seq<Byte>, d: seq<Byte>)
    requires Holds(f, abcd, buf, m) && |m| % 64 + |d| < 64 && |buf'| == 64
    requires buf'[..|m| % 64 + |d|] == buf[..|m| % 64] + d
    ensures Holds(f, abcd, buf', m + d)
  {
    hide Folded;
    var all := m + d;
    assert |all| % 64 == |m| % 64 + |d|;
    assert Whole(all) == Whole(m);
    assert Rest(all) == Rest(m) + d;
  }

  /** Bytes that complete the block in the buffer. */
  lemma Completes(f: Compress, abcd: Words, buf: seq<Byte>, buf': seq<Byte>, m: seq<Byte>, d: seq<Byte>)
    requires Holds(f, abcd, buf, m) && |m| % 64 + |d| == 64 && |buf'| == 64
    requires buf' == buf[..|m| % 64] + d
    ensures |m + d| % 64 == 0 && f(abcd, buf') == Folded(f, m + d)
  {
    hide Folded;
    assert m + d == Whole(m) + buf';
    FoldBlock(f, Whole(m), buf');
  }

  lemma AtBoundary(f: Compress, abcd: Words, buf: seq<Byte>, m: seq<Byte>)
    requires Holds(f, abcd, buf, m) && |m| % 64 == 0
    ensures abcd == Folded(f, m)
  {
    assert Whole(m) == m;
  }

  lemma NextBlock(f: Compress, m: seq<Byte>, data: seq<Byte>, p: nat)
    requires p + 64 <= |data| && |m + data[..p]| % 64 == 0
    ensures Folded(f, m + data[..p + 64]) == f(Folded(f, m + data[..p]), data[p..p + 64])
  {
    assert m + data[..p + 64] == m + data[..p] + data[p..p + 64];
    FoldBlock(f, m + data[..p], data[p..p + 64]);
  }

  lemma LastPartial(f: Compress, abcd: Words, buf: seq<Byte>, m: seq<Byte>, data: seq<Byte>, p: nat)
    requires p <= |data| < p + 64 && |m + data[..p]| % 64 == 0 && |buf| == 64
    requires abcd == Folded(f, m + data[..p]) && buf[..|data| - p] == data[p..]
    ensures Holds(f, abcd, buf, m + data)
  {
    hide Folded;
    var all := m + data;
    assert all == (m + data[..p]) + data[p..];
    assert |all| % 64 == |data| - p;
    assert Whole(all) == m + data[..p];
    assert Rest(all) == data[p..];
  }

  /** A sum that is kept in a 32-bit `int`, wrapping round as two's complement does. */
  function WrapInt(x: int): int {
    (x + 0x8000_0000) % 0x1_0000_0000 - 0x8000_0000
  }

  /** How many bytes `md5_append` copies behind `offset` bytes in the buffer. */
  function CopyLength(offset: int, nbytes: int): int {
    if WrapInt(offset + nbytes) > 64 then 64 - offset else nbytes
  }

  /** The copy stays inside the buffer unless the sum overflows, and then it never does. */
  lemma CopyFits(offset: int, nbytes: int)
    requires 0 < offset < 64 && 0 < nbytes <= MaxInt
    ensures offset + CopyLength(offset, nbytes) <= 64 <==> offset + nbytes <= MaxInt
    ensures offset + nbytes <= MaxInt ==>
      CopyLength(offset, nbytes) == if offset + nbytes > 64 then 64 - offset else nbytes
  {
    var x := offset + nbytes;
    assert WrapInt(x) == if x <= MaxInt then x else x - 0x1_0000_0000;
  }

  /** The bytes of two or four words, as both loops of `md5_finish` write them. */
  method WordBytes(words: seq<Word>) returns (b: seq<Byte>)
    ensures b == Bytes(words)
  {
    hide Bytes, ByteOf;
    b := [];
    for i := 0 to 4 * |words|
      invariant b == Bytes(words)[..i]
    {
      BytesAt(words, i);
      b := b + [ByteOf(words[i / 4], i % 4)];
    }
  }

  class State {
    const process: Compress
    const buf: array<Byte>
    var count0: Word
    var count1: Word
    var abcd: Words
    /** Everything appended so far. */
    ghost var message: seq<Byte>

    ghost predicate Valid()
      reads this, buf
    {
      buf.Length == 64 && Counts(count0, count1, |message|) && Holds(process, abcd, buf[..], message)
    }

    constructor (process: Compress)
      ensures Valid() && message == [] && fresh(buf) && this.process == process
    {
      this.process := process;
      count0, count1 := 0, 0;
      abcd := Words(0x6745_2301, 0xefcd_ab89, 0x98ba_dcfe, 0x1032_5476);
      message := [];
      buf := new Byte[64];
      new;
      hide Holds;
      HoldsNothing(process, buf[..]);
    }

    /** `memcpy` of `n` bytes of `data` from `p` into the buffer. */
    method Copy(offset: nat, data: seq<Byte>, p: nat, n: nat)
      requires offset + n <= buf.Length && p + n <= |data|
      modifies buf
      ensures buf[..] == old(buf[..offset]) + data[p..p + n] + old(buf[offset + n..])
    {
      forall k | 0 <= k < n {
        buf[offset + k] := data[p + k];
      }
    }

    /** Counting the bits of `nbytes` more bytes after `n`. */
    method AddLength(nbytes: int, ghost n: nat)
      requires 0 < nbytes <= MaxInt && Counts(count0, count1, n)
      modifies this`count0, this`count1
      ensures Counts(count0, count1, n + nbytes)
    {
      hide Counts;
      var nbits := 8 * nbytes % 0x1_0000_0000;
      ghost var c0, c1 := count0, count1;
      count1 := (count1 + nbytes / 0x2000_0000) % 0x1_0000_0000;
      count0 := (count0 + nbits) % 0x1_0000_0000;
      if count0 < nbits {
        count1 := (count1 + 1) % 0x1_0000_0000;
      }
      CountsAdd(c0, c1, n, nbytes, count0, count1);
    }

    /** The state depends only on the bytes appended, not on how they were cut up. */
    method Append(data: seq<Byte>, nbytes: int)
      requires Valid()
      requires nbytes <= |data| && nbytes <= MaxInt
      requires var offset := count0 / 8 % 64; offset == 0 || offset + nbytes <= MaxInt
      modifies this`count0, this`count1, this`abcd, this`message, buf
      ensures Valid()
      ensures message == old(message) + if nbytes <= 0 then [] else data[..nbytes]
    {
      hide Counts, Holds, Folded, Whole, Rest;
      CountsOffset(count0, count1, |message|);
      var p, left := 0, nbytes;
      var offset := count0 / 8 % 64;
      if nbytes <= 0 {
        return;
      }
      AddLength(nbytes, |message|);
      ghost var m, d := message, data[..nbytes];
      message := message + d;
      if offset != 0 {
        CopyFits(offset, nbytes);
        var copy := CopyLength(offset, nbytes);
        Copy(offset, data, 0, copy);
        if offset + copy < 64 {
          StillPartial(process, abcd, old(buf[..]), buf[..], m, d);
          return;
        }
        p := p + copy;
        left := left - copy;
        Completes(process, abcd, old(buf[..]), buf[..], m, d[..p]);
        abcd := process(abcd, buf[..]);
      } else {
        AtBoundary(process, abcd, buf[..], m);
        assert m + d[..0] == m;
      }
      FullBlocks(data, nbytes, p, left, m);
    }

    /** Whole blocks straight from the data, and the rest into the buffer. */
    method FullBlocks(data: seq<Byte>, nbytes: int, p0: nat, left0: nat, ghost m: seq<Byte>)
      requires buf.Length == 64 && p0 + left0 == nbytes <= |data|
      requires |m + data[..nbytes][..p0]| % 64 == 0 && abcd == Folded(process, m + data[..nbytes][..p0])
      modifies this`abcd, buf
      ensures Holds(process, abcd, buf[..], m + data[..nbytes])
    {
      hide Holds, Folded, Whole, Rest;
      var p, left := p0, left0;
      ghost var d := data[..nbytes];
      while left >= 64
        invariant p + left == nbytes && 0 <= left
        invariant |m + d[..p]| % 64 == 0 && abcd == Folded(process, m + d[..p])
      {
        NextBlock(process, m, d, p);
        assert data[p..p + 64] == d[p..p + 64];
        abcd := process(abcd, data[p..p + 64]);
        p, left := p + 64, left - 64;
      }
      if left != 0 {
        Copy(0, data, p, left);
      }
      assert data[p..p + left] == d[p..];
      assert buf[..][..left] == d[p..];
      LastPartial(process, abcd, buf[..], m, d, p);
    }

    method Finish() returns (digest: seq<Byte>)
      requires Valid()
      modifies this`count0, this`count1, this`abcd, this`message, buf
      ensures Valid() && message == Padded(old(message))
      ensures |message| % 64 == 0 && digest == Digest(Folded(process, message))
    {
      hide Counts, Holds, Folded, Whole, Rest, LittleEndian, Padded, Bytes;
      ghost var m := message;
      CountsOffset(count0, count1, |m|);
      LengthBytes(count0, count1, |m|);
      var data := WordBytes([count0, count1]);
      var pad := [0x80] + Zeros(63);
      var n := (55 - count0 / 8) % 64 + 1;
      PadLength(|m|, count0, n);
      Append(pad, n);
      CountsOffset(count0, count1, |message|);
      Append(data, 8);
      assert data[..8] == data;
      PaddedIs(m, n, data);
      PaddedBlocks(m);
      AtBoundary(process, abcd, buf[..], message);
      digest := WordBytes([abcd.a, abcd.b, abcd.c, abcd.d]);
    }
  }

  // ----- Byte by byte

  /** Section 3.5: A, B, C and D, each with its low-order byte first. */
  lemma DigestBytes(w: Words, i: nat)
    requires i < 4
    ensures |Digest(w)| == 16
    ensures var shift := (match i case 0 => 1 case 1 => 0x100 case 2 => 0x1_0000 case _ => 0x100_0000);
            && Digest(w)[i] == w.a / shift % 256 && Digest(w)[4 + i] == w.b / shift % 256
            && Digest(w)[8 + i] == w.c / shift % 256 && Digest(w)[12 + i] == w.d / shift % 256
  {
    hide Bytes;
    var words := [w.a, w.b, w.c, w.d];
    BytesAt(words, i);
    BytesAt(words, 4 + i);
    BytesAt(words, 8 + i);
    BytesAt(words, 12 + i);
    assert (4 + i) / 4 == 1 && (8 + i) / 4 == 2 && (12 + i) / 4 == 3 && (4 + i) % 4 == i;
  }

  /** Section 3.3: the state begins with the bytes 01 23 45 67, 89 ab cd ef, fe dc ba 98, 76 54 32 10. */
  lemma InitialBytes()
    ensures |Digest(Initial)| == 16
    ensures Digest(Initial)[..4] == [0x01, 0x23, 0x45, 0x67] && Digest(Initial)[4..8] == [0x89, 0xab, 0xcd, 0xef]
    ensures Digest(Initial)[8..12] == [0xfe, 0xdc, 0xba, 0x98] && Digest(Initial)[12..] == [0x76, 0x54, 0x32, 0x10]
  {
    hide Digest;
    DigestBytes(Initial, 0);
    DigestBytes(Initial, 1);
    DigestBytes(Initial, 2);
    DigestBytes(Initial, 3);
  }

  /** Sections 3.1 and 3.2: the message, the byte 80, the fewest zeros that make whole blocks, and
      eight bytes for the number of bits. */
  lemma PaddedShape(m: seq<Byte>)
    ensures var padded, n := Padded(m), |m|;
            && |padded| % 64 == 0 && n + 9 <= |padded| < n + 9 + 64
            && padded[..n] == m && padded[n] == 0x80
            && (forall i :: n < i < |padded| - 8 ==> padded[i] == 0)
            && padded[|padded| - 8..] == LittleEndian(8 * n % 0x1_0000_0000_0000_0000, 8)
  {
    hide ZeroFill, LittleEndian;
    PaddedBlocks(m);
    var n, k := |m|, (56 - (|m| + 1)) % 64;
    ZeroFillLength(m + [0x80], k);
    var z := m + [0x80] + Zeros(k);
    forall i | n < i < |z| ensures z[i] == 0 {
      assert z[i] == Zeros(k)[i - n - 1];
    }
  }

  /** The number that bytes make up, the first counting least. */
  function Number(b: seq<Byte>): nat {
    if b == [] then 0 else b[0] + 256 * Number(b[1..])
  }

  lemma {:induction false} LengthIs(n: nat, k: nat)
    requires n < Power256(k)
    ensures Number(LittleEndian(n, k)) == n
    decreases k
  {
    if k > 0 {
      assert n / 256 < Power256(k - 1);
      LengthIs(n / 256, k - 1);
      EndianStep(n, k);
      hide LittleEndian, Power256;
      assert n == n % 256 + 256 * (n / 256);
    }
  }

  lemma EndianStep(n: nat, k: nat)
    requires k > 0
    ensures LittleEndian(n, k)[0] == n % 256 && LittleEndian(n, k)[1..] == LittleEndian(n / 256, k - 1)
  {
  }
}
