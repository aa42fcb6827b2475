/** The streaming digest of utils/md5.c, for an arbitrary block function. */
module Md5 {
  type Byte = n: int | 0 <= n < 0x100
  type Word = n: int | 0 <= n < 0x1_0000_0000

  const WORD: int := 0x1_0000_0000
  const LONG: int := 0x1_0000_0000_0000_0000
  const INT_MAX: int := 0x7FFF_FFFF

  datatype Abcd = Abcd(a: Word, b: Word, c: Word, d: Word)

  type BlockFunction = (Abcd, seq<Byte>) -> Abcd

  const INITIAL := Abcd(0x67452301, 0xefcdab89, 0x98badcfe, 0x10325476)

  // ---------------------------------------------------------------------
  // The digest of a message (RFC 1321, section 3)
  // ---------------------------------------------------------------------

  /** The state after all complete blocks. */
  function Absorb(block: BlockFunction, s: Abcd, m: seq<Byte>): Abcd
    decreases |m|
  {
    if |m| < 64 then s else Absorb(block, block(s, m[..64]), m[64..])
  }

  /** What follows the complete blocks. */
  function Tail(m: seq<Byte>): (t: seq<Byte>)
    ensures |t| == |m| % 64
  {
    m[|m| - |m| % 64..]
  }

  function Zeros(n: nat): (z: seq<Byte>)
    ensures |z| == n
  {
    seq(n, _ => 0)
  }

  /** Section 3.1: a one bit, then zeros, up to 56 modulo 64 bytes; always at least one byte. */
  function Padding(n: nat): seq<Byte> {
    [0x80] + Zeros((55 - n) % 64)
  }

  /** A number as so many bytes, low-order byte first. */
  function LittleEndian(v: nat, count: nat): (s: seq<Byte>)
    ensures |s| == count
  {
    if count == 0 then [] else [v % 256] + LittleEndian(v / 256, count - 1)
  }

  /** Section 3.2: the number of bits, modulo 2^64. */
  function Padded(m: seq<Byte>): seq<Byte> {
    m + Padding(|m|) + LittleEndian(8 * |m| % LONG, 8)
  }

  function Encode(s: Abcd): seq<Byte> {
    LittleEndian(s.a, 4) + LittleEndian(s.b, 4) + LittleEndian(s.c, 4) + LittleEndian(s.d, 4)
  }

  function Digest(block: BlockFunction, m: seq<Byte>): seq<Byte> {
    Encode(Absorb(block, INITIAL, Padded(m)))
  }

  lemma ZerosFit(n: nat)
    ensures var z := (55 - n) % 64; (n + 1 + z + 8) % 64 == 0
  {
  }

  lemma FewerZeros(n: nat, k: nat)
    requires 0 < k < 1 + (55 - n) % 64
    ensures (n + k) % 64 != 56
  {
    var r := n % 64;
    assert (55 - n) % 64 == if r <= 55 then 55 - r else 119 - r;
    assert (n + k) % 64 == if r + k < 64 then r + k else r + k - 64;
  }

  /** The padding is the shortest that leaves room for just the length in the last block. */
  lemma PaddingIsLeast(m: seq<Byte>, k: nat)
    ensures |Padded(m)| % 64 == 0
    ensures 0 < k < |Padding(|m|)| ==> (|m| + k) % 64 != 56
  {
    ZerosFit(|m|);
    assert |Padding(|m|)| == 1 + (55 - |m|) % 64;
    assert |Padded(m)| == |m| + 1 + (55 - |m|) % 64 + 8;
    if 0 < k < |Padding(|m|)| {
      FewerZeros(|m|, k);
    }
  }

  function FromLittleEndian(s: seq<Byte>): nat {
    if s == [] then 0 else s[0] + 256 * FromLittleEndian(s[1..])
  }

  function Power256(n: nat): nat {
    if n == 0 then 1 else 256 * Power256(n - 1)
  }

  lemma {:induction false} LittleEndianReads(v: nat, count: nat)
    requires v < Power256(count)
    ensures FromLittleEndian(LittleEndian(v, count)) == v
  {
    if count > 0 {
      LittleEndianReads(v / 256, count - 1);
    }
  }

  /** The length can be read back from a padded message. */
  lemma LengthReads(m: seq<Byte>)
    ensures var p := Padded(m); FromLittleEndian(p[|p| - 8..]) == 8 * |m| % LONG
  {
    var p := Padded(m);
    assert p[|p| - 8..] == LittleEndian(8 * |m| % LONG, 8);
    assert Power256(8) == LONG by {
      assert Power256(4) == WORD;
    }
    LittleEndianReads(8 * |m| % LONG, 8);
  }

  // ---------------------------------------------------------------------
  // Feeding a message in parts
  // ---------------------------------------------------------------------

  lemma TailDrops(m: seq<Byte>)
    requires |m| >= 64
    ensures Tail(m) == Tail(m[64..])
  {
    assert |m[64..]| % 64 == |m| % 64;
  }

  lemma {:induction false} AbsorbAppend(block: BlockFunction, s: Abcd, m: seq<Byte>, d: seq<Byte>)
    ensures Absorb(block, s, m + d) == Absorb(block, Absorb(block, s, m), Tail(m) + d)
    decreases |m|
  {
    if |m| < 64 {
      assert Tail(m) == m;
    } else {
      assert (m + d)[..64] == m[..64] && (m + d)[64..] == m[64..] + d;
      AbsorbAppend(block, block(s, m[..64]), m[64..], d);
      TailDrops(m);
    }
  }

  lemma TailAppend(m: seq<Byte>, d: seq<Byte>)
    ensures Tail(m + d) == Tail(Tail(m) + d)
  {
    var u, v, cut := m + d, Tail(m) + d, |m| - |m| % 64;
    assert v == u[cut..];
    SameRemainder(|v|, |m| / 64);
    assert |u| == |v| + 64 * (|m| / 64);
  }

  lemma SameRemainder(n: nat, q: nat)
    ensures (n + 64 * q) % 64 == n % 64
  {
  }

  lemma Remainder(x: nat, q: nat, r: nat)
    requires x == LONG * q + r && r < LONG
    ensures x % LONG == r
  {
  }

  /** The two words of the bit count, added to with a carry. */
  lemma CountAdds(c0: Word, c1: Word, n: nat, total: nat)
    requires c0 + WORD * c1 == 8 * total % LONG
    ensures var bits := 8 * n % WORD;
      var low := (c0 + bits) % WORD;
      var high := (c1 + n / 0x2000_0000 + if low < bits then 1 else 0) % WORD;
      low + WORD * high == 8 * (total + n) % LONG
  {
    var k, bits, q := 8 * total / LONG, 8 * n % WORD, n / 0x2000_0000;
    assert 8 * n == WORD * q + bits;
    assert 8 * total == LONG * k + (c0 + WORD * c1);
    AddWords(c0, c1, bits, q, k, 8 * total, 8 * n);
  }

  lemma AddWords(c0: Word, c1: Word, bits: Word, q: nat, k: nat, before: nat, more: nat)
    requires before == LONG * k + (c0 + WORD * c1) && more == WORD * q + bits
    ensures var low := (c0 + bits) % WORD;
      var high := (c1 + q + if low < bits then 1 else 0) % WORD;
      low + WORD * high == (before + more) % LONG
  {
    var low := if c0 + bits < WORD then c0 + bits else c0 + bits - WORD;
    assert low == (c0 + bits) % WORD;
    var sum := c1 + q + if low < bits then 1 else 0;
    var j, high := sum / WORD, sum % WORD;
    assert sum == WORD * j + high;
    Remainder(before + more, k + j, low + WORD * high);
  }

  lemma SameZeros(x: nat, y: nat)
    requires x % 64 == y % 64
    ensures (55 - x) % 64 == (55 - y) % 64
  {
    assert x == y + 64 * (x / 64 - y / 64);
  }

  lemma CarryTwice(n: nat)
    ensures (n % WORD + 1) % WORD == (n + 1) % WORD
  {
  }

  lemma CountOffset(c0: Word, c1: Word, total: nat)
    requires c0 + WORD * c1 == 8 * total % LONG
    ensures c0 / 8 % 64 == total % 64
  {
    var k := 8 * total / LONG;
    assert 8 * total == LONG * k + c0 + WORD * c1;
    assert c0 == 8 * (total - 0x2000_0000_0000_0000 * k - 0x2000_0000 * c1);
    assert c0 / 8 == total - 64 * (0x80_0000_0000_0000 * k + 0x80_0000 * c1);
  }

  // ---------------------------------------------------------------------
  // The parts of the definition
  // ---------------------------------------------------------------------

  function Join(blocks: seq<seq<Byte>>): seq<Byte> {
    if blocks == [] then [] else blocks[0] + Join(blocks[1..])
  }

  /** The block function applied to one block after the other. */
  function Fold(block: BlockFunction, s: Abcd, blocks: seq<seq<Byte>>): Abcd
    decreases |blocks|
  {
    if blocks == [] then s else Fold(block, block(s, blocks[0]), blocks[1..])
  }

  /** Of a message, just the complete blocks are absorbed, in order, and the rest is left. */
  lemma {:induction false} AbsorbIsFold(block: BlockFunction, s: Abcd, blocks: seq<seq<Byte>>, rest: seq<Byte>)
    requires (forall i | 0 <= i < |blocks| :: |blocks[i]| == 64) && |rest| < 64
    ensures Absorb(block, s, Join(blocks) + rest) == Fold(block, s, blocks)
    ensures Tail(Join(blocks) + rest) == rest
    decreases |blocks|
  {
    if blocks == [] {
      assert [] + rest == rest;
    } else {
      var b, m := blocks[0], Join(blocks[1..]) + rest;
      assert Join(blocks) + rest == b + m && (b + m)[..64] == b && (b + m)[64..] == m;
      AbsorbIsFold(block, block(s, b), blocks[1..], rest);
      TailDrops(b + m);
    }
  }

  /** The digest is made of the registers after all blocks of the padded message. */
  lemma DigestIsFold(block: BlockFunction, m: seq<Byte>, blocks: seq<seq<Byte>>)
    requires (forall i | 0 <= i < |blocks| :: |blocks[i]| == 64) && Join(blocks) == Padded(m)
    ensures Digest(block, m) == Encode(Fold(block, INITIAL, blocks))
  {
    AbsorbIsFold(block, INITIAL, blocks, []);
    assert Join(blocks) + [] == Join(blocks);
  }

  /** The word of four bytes, low-order byte first. */
  function LowFirst(b0: Byte, b1: Byte, b2: Byte, b3: Byte): nat {
    b0 + 0x100 * (b1 + 0x100 * (b2 + 0x100 * b3))
  }

  /** Section 3.3: the registers start with the bytes 01 to ef, and these in reverse, low-order bytes first. */
  lemma InitialBytes()
    ensures INITIAL.a == LowFirst(0x01, 0x23, 0x45, 0x67) && INITIAL.b == LowFirst(0x89, 0xab, 0xcd, 0xef)
    ensures INITIAL.c == LowFirst(0xfe, 0xdc, 0xba, 0x98) && INITIAL.d == LowFirst(0x76, 0x54, 0x32, 0x10)
  {
  }

  /** Section 3.5: the digest has the four registers in order, low-order bytes first. */
  lemma EncodeReads(s: Abcd)
    ensures var e := Encode(s);
      && |e| == 16
      && FromLittleEndian(e[..4]) == s.a && FromLittleEndian(e[4..8]) == s.b
      && FromLittleEndian(e[8..12]) == s.c && FromLittleEndian(e[12..]) == s.d
  {
    var e := Encode(s);
    assert e[..4] == LittleEndian(s.a, 4) && e[4..8] == LittleEndian(s.b, 4);
    assert e[8..12] == LittleEndian(s.c, 4) && e[12..] == LittleEndian(s.d, 4);
    assert Power256(4) == WORD;
    LittleEndianReads(s.a, 4);
    LittleEndianReads(s.b, 4);
    LittleEndianReads(s.c, 4);
    LittleEndianReads(s.d, 4);
  }

  /** The bits of a byte, high-order bit first. */
  function BitsOf(b: Byte): seq<int> {
    [b / 128, b / 64 % 2, b / 32 % 2, b / 16 % 2, b / 8 % 2, b / 4 % 2, b / 2 % 2, b % 2]
  }

  function AllBits(m: seq<Byte>): seq<int> {
    if m == [] then [] else BitsOf(m[0]) + AllBits(m[1..])
  }

  predicate AllZero(s: seq<int>) {
    forall i | 0 <= i < |s| :: s[i] == 0
  }

  lemma {:induction false} ZeroBits(m: seq<Byte>)
    requires AllZero(m)
    ensures AllZero(AllBits(m))
  {
    if m != [] {
      ZeroBits(m[1..]);
    }
  }

  /** Section 3.1: the padding is a single one bit and then zero bits; the message stands before it. */
  lemma PaddingBits(m: seq<Byte>)
    ensures var bits := AllBits(Padding(|m|)); bits[0] == 1 && AllZero(bits[1..])
    ensures Padded(m)[..|m|] == m && Padded(m)[|m|..|m| + |Padding(|m|)|] == Padding(|m|)
  {
    var pad := Padding(|m|);
    assert pad[1..] == Zeros((55 - |m|) % 64);
    ZeroBits(pad[1..]);
    assert AllBits(pad) == BitsOf(0x80) + AllBits(pad[1..]);
  }

  // ---------------------------------------------------------------------
  // The streaming state
  // ---------------------------------------------------------------------

  function Bits(count: seq<Word>): nat
    requires |count| == 2
  {
    count[0] + WORD * count[1]
  }

  /** One byte of a word: (word >> (8 * i)) & 0xff. */
  function ByteOf(w: Word, i: nat): Byte
    requires i < 4
  {
    (if i == 0 then w else if i == 1 then w / 0x100 else if i == 2 then w / 0x100 / 0x100 else w / 0x100 / 0x100 / 0x100) % 0x100
  }

  lemma WordBytes(w: Word)
    ensures LittleEndian(w, 4) == [ByteOf(w, 0), ByteOf(w, 1), ByteOf(w, 2), ByteOf(w, 3)]
  {
    var w1 := w / 0x100;
    var w2 := w1 / 0x100;
    var w3 := w2 / 0x100;
    assert LittleEndian(w3, 1) == [w3 % 0x100];
    assert LittleEndian(w2, 2) == [w2 % 0x100] + LittleEndian(w3, 1);
    assert LittleEndian(w1, 3) == [w1 % 0x100] + LittleEndian(w2, 2);
  }

  lemma {:induction false} LittleEndianSplits(low: nat, high: nat, k: nat, n: nat)
    requires low < Power256(k)
    ensures LittleEndian(low + Power256(k) * high, k + n) == LittleEndian(low, k) + LittleEndian(high, n)
  {
    if k > 0 {
      var rest := Power256(k - 1) * high;
      Times256(Power256(k - 1), high);
      LowByte(low, rest);
      LittleEndianSplits(low / 256, high, k - 1, n);
    }
  }

  lemma Times256(p: nat, x: nat)
    ensures 256 * p * x == 256 * (p * x)
  {
  }

  lemma LowByte(low: nat, rest: nat)
    ensures (low + 256 * rest) / 256 == low / 256 + rest && (low + 256 * rest) % 256 == low % 256
  {
  }

  /** The bytes of the two count words are those of the count. */
  lemma CountBytes(c0: Word, c1: Word)
    ensures LittleEndian(c0 + WORD * c1, 8)
         == [ByteOf(c0, 0), ByteOf(c0, 1), ByteOf(c0, 2), ByteOf(c0, 3)]
          + [ByteOf(c1, 0), ByteOf(c1, 1), ByteOf(c1, 2), ByteOf(c1, 3)]
  {
    assert Power256(4) == WORD;
    LittleEndianSplits(c0, c1, 4, 4);
    WordBytes(c0);
    WordBytes(c1);
  }

  /** md5_state_t, with the message that it has been given so far. */
  class Stream {
    const block: BlockFunction
    const count: array<Word>
    const buf: array<Byte>
    var abcd: Abcd
    ghost var message: seq<Byte>

    /** Count, registers and buffer say what the message so far amounts to. */
    ghost predicate Valid()
      reads this, count, buf
    {
      && count.Length == 2 && buf.Length == 64
      && Bits(count[..]) == 8 * |message| % LONG
      && abcd == Absorb(block, INITIAL, message)
      && buf[..|Tail(message)|] == Tail(message)
    }

    /** lcfgutils_md5_init. */
    constructor (block: BlockFunction)
      ensures Valid() && this.block == block && message == [] && fresh(count) && fresh(buf)
    {
      this.block := block;
      count := new Word[2](_ => 0);
      buf := new Byte[64](_ => 0);
      abcd, message := INITIAL, [];
    }

    /** memcpy into the buffer. */
    method Copy(offset: nat, data: seq<Byte>)
      requires buf.Length == 64 && offset + |data| <= 64
      modifies buf
      ensures buf[..offset + |data|] == old(buf[..offset]) + data
    {
      forall i | 0 <= i < |data| {
        buf[offset + i] := data[i];
      }
    }

    method AddToCount(nbytes: nat, ghost total: nat)
      requires count.Length == 2 && Bits(count[..]) == 8 * total % LONG
      modifies count
      ensures Bits(count[..]) == 8 * (total + nbytes) % LONG
    {
      var nbits := 8 * nbytes % WORD;
      ghost var c0, c1 := count[0], count[1];
      CountAdds(c0, c1, nbytes, total);
      CarryTwice(c1 + nbytes / 0x2000_0000);
      count[1] := (count[1] + nbytes / 0x2000_0000) % WORD;
      count[0] := (count[0] + nbits) % WORD;
      if count[0] < nbits {
        count[1] := (count[1] + 1) % WORD;
      }
    }

    /** The last two steps of lcfgutils_md5_append: full blocks, then a partial one. */
    method AppendBlocks(data: seq<Byte>)
      requires buf.Length == 64
      modifies `abcd, buf
      ensures abcd == Absorb(block, old(abcd), data) && buf[..|Tail(data)|] == Tail(data)
    {
      var p: nat, left: nat := 0, |data|;
      ghost var rest := data;
      while left >= 64
        invariant p + left == |data| && rest == data[p..]
        invariant Absorb(block, old(abcd), data) == Absorb(block, abcd, rest)
        invariant Tail(data) == Tail(rest)
      {
        assert data[p..p + 64] == rest[..64];
        TailDrops(rest);
        abcd := block(abcd, data[p..p + 64]);
        rest := rest[64..];
        p := p + 64;
        left := left - 64;
      }
      if left != 0 {
        Copy(0, data[p..]);
      }
    }

    /** Where the buffer is to be filled from. */
    method Offset(ghost total: nat) returns (offset: nat)
      requires count.Length == 2 && Bits(count[..]) == 8 * total % LONG
      ensures offset == total % 64
    {
      var c := count[0];
      CountOffset(c, count[1], total);
      offset := c / 8 % 64;
    }

    /** Finish a block that was begun before, as far as the data reach, and then go on with the rest. */
    method AppendAfter(offset: nat, data: seq<Byte>, ghost tail: seq<Byte>)
      requires buf.Length == 64 && 0 < offset == |tail| < 64 && buf[..offset] == tail
      modifies `abcd, buf
      ensures abcd == Absorb(block, old(abcd), tail + data)
      ensures buf[..|Tail(tail + data)|] == Tail(tail + data)
    {
      var copy := if offset + |data| > 64 then 64 - offset else |data|;
      Copy(offset, data[..copy]);
      if offset + copy < 64 {
        assert data[..copy] == data;
        return;
      }
      var rest := data[copy..];
      assert (tail + data)[..64] == buf[..] && (tail + data)[64..] == rest;
      TailDrops(tail + data);
      abcd := block(abcd, buf[..]);
      AppendBlocks(rest);
    }

    /** lcfgutils_md5_append. */
    method Append(data: seq<Byte>)
      requires Valid() && 64 + |data| <= INT_MAX
      modifies this, count, buf
      ensures Valid() && message == old(message) + data
    {
      ghost var tail := Tail(message);
      var offset := Offset(|message|);
      if data == [] {
        assert message + data == message;
        return;
      }
      AddToCount(|data|, |message|);
      AbsorbAppend(block, INITIAL, message, data);
      TailAppend(message, data);
      message := message + data;
      if offset != 0 {
        AppendAfter(offset, data, tail);
      } else {
        assert tail + data == data;
        AppendBlocks(data);
      }
    }

    /** The length before padding, as lcfgutils_md5_finish saves it. */
    method SavedLength() returns (data: seq<Byte>)
      requires count.Length == 2
      ensures data == LittleEndian(Bits(count[..]), 8)
    {
      data := [];
      for i := 0 to 8
        invariant |data| == i
        invariant forall j | 0 <= j < i :: data[j] == ByteOf(count[j / 4], j % 4)
      {
        data := data + [ByteOf(count[i / 4], i % 4)];
      }
      CountBytes(count[0], count[1]);
    }

    method PaddingBytes(ghost total: nat) returns (pad: seq<Byte>)
      requires count.Length == 2 && Bits(count[..]) == 8 * total % LONG
      ensures pad == Padding(total)
    {
      var c: Word := count[0];
      CountOffset(c, count[1], total);
      var zeros: nat := (55 - c / 8) % 64;
      SameZeros(c / 8, total);
      pad := [0x80] + Zeros(zeros);
    }

    /** lcfgutils_md5_finish. */
    method Finish() returns (digest: seq<Byte>)
      requires Valid()
      modifies this, count, buf
      ensures digest == Digest(block, old(message))
    {
      var data := SavedLength();
      var pad := PaddingBytes(|message|);
      Append(pad);
      Append(data);
      digest := Encode(abcd);
    }
  }

  function Flatten(parts: seq<seq<Byte>>): seq<Byte> {
    if parts == [] then [] else Flatten(parts[..|parts| - 1]) + parts[|parts| - 1]
  }

  /** However a message is split into parts, appending them gives the digest of the whole. */
  method DigestOfParts(block: BlockFunction, parts: seq<seq<Byte>>) returns (digest: seq<Byte>)
    requires forall i | 0 <= i < |parts| :: 64 + |parts[i]| <= INT_MAX
    ensures digest == Digest(block, Flatten(parts))
  {
    var stream := new Stream(block);
    for i := 0 to |parts|
      invariant stream.Valid() && stream.block == block && fresh(stream) && fresh(stream.count) && fresh(stream.buf)
      invariant stream.message == Flatten(parts[..i])
    {
      stream.Append(parts[i]);
      assert parts[..i + 1][..i] == parts[..i];
    }
    assert parts[..|parts|] == parts;
    digest := stream.Finish();
  }
}
