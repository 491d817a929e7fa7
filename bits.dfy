/**
 * Value semantics shared by every layer of the codec: bytes, bit sequences,
 * the packing of bits into bytes (bit i lives in byte i/8 at position i%8,
 * least significant bit first) and the unsigned value of a bit sequence
 * (bit i has weight 2^i).
 */
module Bits {

  type Byte = bv8

  /** The abstract content of a bit buffer or a command. */
  type Bits = seq<bool>

  function Pow2(n: nat): (r: nat)
    ensures r >= 1
  {
    if n == 0 then 1 else 2 * Pow2(n - 1)
  }

  /** The powers the codec's constants use. */
  lemma Pow2Values()
    ensures Pow2(1) == 2 && Pow2(2) == 4 && Pow2(3) == 8 && Pow2(4) == 16
    ensures Pow2(6) == 64 && Pow2(8) == 256 && Pow2(10) == 1024 && Pow2(12) == 4096
    ensures Pow2(13) == 8192 && Pow2(14) == 16384 && Pow2(16) == 65536
  {
    assert Pow2(4) == 16;
    assert Pow2(8) == 256;
    assert Pow2(12) == 4096;
    assert Pow2(16) == 65536;
  }

  // ---------------------------------------------------------------------------
  // Bits of a byte

  /** The one-bit mask `1 << k` of a byte, written out so that no shift by a
      variable amount reaches the solver. */
  function BitMask(k: nat): Byte
    requires k < 8
  {
    if k == 0 then 0x01 else if k == 1 then 0x02 else if k == 2 then 0x04
    else if k == 3 then 0x08 else if k == 4 then 0x10 else if k == 5 then 0x20
    else if k == 6 then 0x40 else 0x80
  }

  /** Bit k of a byte: `(b >> k) & 1`. */
  predicate ByteBit(b: Byte, k: nat)
    requires k < 8
  {
    b & BitMask(k) != 0
  }

  /** The byte whose bits 0..7 are b0..b7. */
  function PackByte(b0: bool, b1: bool, b2: bool, b3: bool,
                    b4: bool, b5: bool, b6: bool, b7: bool): Byte
  {
    (if b0 then 0x01 else 0) | (if b1 then 0x02 else 0) | (if b2 then 0x04 else 0) |
    (if b3 then 0x08 else 0) | (if b4 then 0x10 else 0) | (if b5 then 0x20 else 0) |
    (if b6 then 0x40 else 0) | (if b7 then 0x80 else 0)
  }

  lemma PackByteBits(b0: bool, b1: bool, b2: bool, b3: bool,
                     b4: bool, b5: bool, b6: bool, b7: bool, k: nat)
    requires k < 8
    ensures ByteBit(PackByte(b0, b1, b2, b3, b4, b5, b6, b7), k) == [b0, b1, b2, b3, b4, b5, b6, b7][k]
  {
  }

  /** A byte is determined by its eight bits. */
  lemma ByteFromBits(b: Byte)
    ensures b == PackByte(ByteBit(b, 0), ByteBit(b, 1), ByteBit(b, 2), ByteBit(b, 3),
                          ByteBit(b, 4), ByteBit(b, 5), ByteBit(b, 6), ByteBit(b, 7))
  {
  }

  lemma ByteBitsEqual(a: Byte, b: Byte)
    requires forall k :: 0 <= k < 8 ==> ByteBit(a, k) == ByteBit(b, k)
    ensures a == b
  {
    assert ByteBit(a, 0) == ByteBit(b, 0) && ByteBit(a, 1) == ByteBit(b, 1);
    assert ByteBit(a, 2) == ByteBit(b, 2) && ByteBit(a, 3) == ByteBit(b, 3);
    assert ByteBit(a, 4) == ByteBit(b, 4) && ByteBit(a, 5) == ByteBit(b, 5);
    assert ByteBit(a, 6) == ByteBit(b, 6) && ByteBit(a, 7) == ByteBit(b, 7);
    ByteFromBits(a);
    ByteFromBits(b);
  }

  /** Setting bit k with `|=` changes bit k only. */
  lemma OrBit(b: Byte, k: nat, v: bool, j: nat)
    requires k < 8 && j < 8
    ensures ByteBit(b | (if v then BitMask(k) else 0), j) == (ByteBit(b, j) || (v && j == k))
  {
  }

  /** Clearing bit k with `&= 0xff ^ mask` changes bit k only. */
  lemma AndNotBit(b: Byte, k: nat, j: nat)
    requires k < 8 && j < 8
    ensures ByteBit(b & (0xff ^ BitMask(k)), j) == (ByteBit(b, j) && j != k)
  {
  }

  lemma ZeroByteBits(j: nat)
    requires j < 8
    ensures !ByteBit(0, j)
  {
  }

  // ---------------------------------------------------------------------------
  // Bytes as bits, bits as bytes

  /** Bit i of a byte array: byte i/8, position i%8. */
  function BytesToBits(bytes: seq<Byte>): (r: Bits)
    ensures |r| == 8 * |bytes|
  {
    seq(8 * |bytes|, i requires 0 <= i < 8 * |bytes| => ByteBit(bytes[i / 8], i % 8))
  }

  /** Bit i of a byte string's bits is bit i%8 of byte i/8. */
  lemma BitOfBytes(bytes: seq<Byte>, i: nat)
    requires i < 8 * |bytes|
    ensures i / 8 < |bytes| && BytesToBits(bytes)[i] == ByteBit(bytes[i / 8], i % 8)
  {
  }

  /** Bit i of s, or false beyond its end (the zero padding of the last byte). */
  function BitOrZero(s: Bits, i: nat): bool
  {
    i < |s| && s[i]
  }

  /** The bytes that hold s, the unused bits of the last byte being zero. */
  function Pack(s: Bits): (r: seq<Byte>)
    ensures |r| == (|s| + 7) / 8
  {
    seq((|s| + 7) / 8, j requires 0 <= j < (|s| + 7) / 8 =>
      PackByte(BitOrZero(s, 8 * j), BitOrZero(s, 8 * j + 1), BitOrZero(s, 8 * j + 2),
               BitOrZero(s, 8 * j + 3), BitOrZero(s, 8 * j + 4), BitOrZero(s, 8 * j + 5),
               BitOrZero(s, 8 * j + 6), BitOrZero(s, 8 * j + 7)))
  }

  /** Reading packed bits back gives the bits, followed by zero padding. */
  lemma PackedBit(s: Bits, i: nat)
    requires i < 8 * |Pack(s)|
    ensures BytesToBits(Pack(s))[i] == BitOrZero(s, i)
  {
    var j, k := i / 8, i % 8;
    assert i == 8 * j + k;
    PackByteBits(BitOrZero(s, 8 * j), BitOrZero(s, 8 * j + 1), BitOrZero(s, 8 * j + 2),
                 BitOrZero(s, 8 * j + 3), BitOrZero(s, 8 * j + 4), BitOrZero(s, 8 * j + 5),
                 BitOrZero(s, 8 * j + 6), BitOrZero(s, 8 * j + 7), k);
  }

  lemma {:induction false} UnpackPack(s: Bits)
    ensures |s| <= 8 * |Pack(s)|
    ensures BytesToBits(Pack(s))[..|s|] == s
  {
    forall i | 0 <= i < |s| ensures BytesToBits(Pack(s))[i] == s[i] {
      PackedBit(s, i);
    }
  }

  lemma {:induction false} PackUnpack(bytes: seq<Byte>)
    ensures Pack(BytesToBits(bytes)) == bytes
  {
    var s := BytesToBits(bytes);
    assert |Pack(s)| == |bytes|;
    forall j | 0 <= j < |bytes| ensures Pack(s)[j] == bytes[j] {
      forall k | 0 <= k < 8 ensures ByteBit(Pack(s)[j], k) == ByteBit(bytes[j], k) {
        PackedBit(s, 8 * j + k);
        assert (8 * j + k) / 8 == j && (8 * j + k) % 8 == k;
      }
      ByteBitsEqual(Pack(s)[j], bytes[j]);
    }
  }

  lemma BytesToBitsAppend(a: seq<Byte>, b: seq<Byte>)
    ensures BytesToBits(a + b) == BytesToBits(a) + BytesToBits(b)
  {
    forall i | 0 <= i < 8 * |a + b|
      ensures BytesToBits(a + b)[i] == (BytesToBits(a) + BytesToBits(b))[i]
    {
      if i >= 8 * |a| {
        AppendedBit(a, b, i);
      }
    }
  }

  /** Bit i of a + b past the bits of a is bit i - 8|a| of b. */
  lemma AppendedBit(a: seq<Byte>, b: seq<Byte>, i: nat)
    requires 8 * |a| <= i < 8 * |a + b|
    ensures BytesToBits(a + b)[i] == BytesToBits(b)[i - 8 * |a|]
  {
    var j := i - 8 * |a|;
    assert j == 8 * (j / 8) + j % 8;
    DivModUnique(i, 8, |a| + j / 8, j % 8);
    assert (a + b)[i / 8] == b[j / 8];
  }

  /** Skipping k bytes skips 8k bits. */
  lemma BytesToBitsDrop(bytes: seq<Byte>, k: nat)
    requires k <= |bytes|
    ensures BytesToBits(bytes[k..]) == BytesToBits(bytes)[8 * k..]
  {
    forall i | 0 <= i < 8 * (|bytes| - k)
      ensures BytesToBits(bytes[k..])[i] == BytesToBits(bytes)[8 * k + i]
    {
      DroppedBit(bytes, k, i);
    }
  }

  /** Bit i after skipping k bytes is bit 8k+i. */
  lemma DroppedBit(bytes: seq<Byte>, k: nat, i: nat)
    requires k <= |bytes| && i < 8 * (|bytes| - k)
    ensures BytesToBits(bytes[k..])[i] == BytesToBits(bytes)[8 * k + i]
  {
    assert i == 8 * (i / 8) + i % 8;
    DivModUnique(8 * k + i, 8, k + i / 8, i % 8);
  }

  /** Bits f..f+cnt-1 read from the bytes from f/8 on, starting at bit f%8. */
  lemma BytesToBitsFrom(bytes: seq<Byte>, f: nat, cnt: nat)
    requires f + cnt <= 8 * |bytes|
    ensures f / 8 <= |bytes| && f % 8 + cnt <= 8 * |bytes[f / 8..]|
    ensures BytesToBits(bytes[f / 8..])[f % 8..f % 8 + cnt] == BytesToBits(bytes)[f..f + cnt]
  {
    BytesToBitsDrop(bytes, f / 8);
    assert 8 * (f / 8) + f % 8 == f;
  }

  /** Clearing bit p below n keeps the bits from n on clear and clears bit p of the content. */
  lemma ClearKeeps(bytes: seq<Byte>, n: nat, p: nat)
    requires p < n <= 8 * |bytes| && ClearFrom(bytes, n)
    ensures ClearFrom(bytes[p / 8 := bytes[p / 8] & (0xff ^ BitMask(p % 8))], n)
    ensures Unpack(bytes[p / 8 := bytes[p / 8] & (0xff ^ BitMask(p % 8))], n) == Unpack(bytes, n)[p := false]
  {
    var q := bytes[p / 8 := bytes[p / 8] & (0xff ^ BitMask(p % 8))];
    BitsAfterClear(bytes, p);
    UnpackIsPrefix(bytes, n);
    UnpackIsPrefix(q, n);
    assert BytesToBits(q)[..n] == BytesToBits(bytes)[..n][p := false];
  }

  /** Setting bit p below n keeps the bits from n on clear and sets bit p of the content. */
  lemma SetKeeps(bytes: seq<Byte>, n: nat, p: nat)
    requires p < n <= 8 * |bytes| && ClearFrom(bytes, n)
    ensures ClearFrom(bytes[p / 8 := bytes[p / 8] | BitMask(p % 8)], n)
    ensures Unpack(bytes[p / 8 := bytes[p / 8] | BitMask(p % 8)], n) == Unpack(bytes, n)[p := true]
  {
    var q := bytes[p / 8 := bytes[p / 8] | BitMask(p % 8)];
    BitsAfterOr(bytes, p, true);
    assert q == bytes[p / 8 := bytes[p / 8] | (if true then BitMask(p % 8) else 0)];
    UnpackIsPrefix(bytes, n);
    UnpackIsPrefix(q, n);
    assert BytesToBits(q)[..n] == BytesToBits(bytes)[..n][p := true];
  }

  /** The byte count ceil(n/8) grows by one exactly when n fills every byte. */
  lemma ByteCount(n: nat)
    ensures n <= 8 * ((n + 7) / 8) < n + 8
    ensures (n + 1 + 7) / 8 == (n + 7) / 8 + (if 8 * ((n + 7) / 8) < n + 1 then 1 else 0)
  {
  }

  /** The bytes after `add_impl` makes room for bit n: one zero byte more when all are full. */
  function Grown(bytes: seq<Byte>, n: nat): seq<Byte>
  {
    if 8 * |bytes| < n + 1 then bytes + [0] else bytes
  }

  /** The bytes with bit n or-ed with v. */
  function WithBit(bytes: seq<Byte>, n: nat, v: bool): seq<Byte>
    requires n < 8 * |bytes|
  {
    bytes[n / 8 := bytes[n / 8] | (if v then BitMask(n % 8) else 0)]
  }

  /** Appending one bit to a well-formed packing of n bits gives one of n+1 bits. */
  lemma AppendBit(bytes: seq<Byte>, n: nat, v: bool)
    requires |bytes| == (n + 7) / 8 && ClearFrom(bytes, n)
    ensures n < 8 * |Grown(bytes, n)|
    ensures |Grown(bytes, n)| == (n + 1 + 7) / 8
    ensures ClearFrom(WithBit(Grown(bytes, n), n, v), n + 1)
    ensures Unpack(WithBit(Grown(bytes, n), n, v), n + 1) == Unpack(bytes, n) + [v]
  {
    ByteCount(n);
    var g := Grown(bytes, n);
    if 8 * |bytes| < n + 1 {
      GrowClear(bytes, n);
    }
    assert ClearFrom(g, n) && Unpack(g, n) == Unpack(bytes, n);
    OrNextBit(g, n, v);
  }

  /** The code a sits in the stream s from position n on: every bit of a is the
      bit of s that many places after n. */
  ghost predicate At(s: Bits, n: nat, a: Bits)
  {
    n + |a| <= |s| && forall j :: 0 <= j < |a| ==> s[n + j] == a[j]
  }

  /** At is the slice of the stream at n. */
  lemma {:induction false} AtSlice(s: Bits, n: nat, a: Bits)
    ensures At(s, n, a) <==> n + |a| <= |s| && s[n..n + |a|] == a
  {
    if n + |a| <= |s| {
      var w := s[n..n + |a|];
      if At(s, n, a) {
        forall j | 0 <= j < |a| ensures w[j] == a[j] {
          assert w[j] == s[n + j];
        }
      }
      if w == a {
        forall j | 0 <= j < |a| ensures s[n + j] == a[j] {
          assert w[j] == s[n + j];
        }
      }
    }
  }

  /** Two codes one after the other sit at n and just past the first. */
  lemma {:induction false} AtAppend(s: Bits, n: nat, a: Bits, b: Bits)
    ensures At(s, n, a + b) <==> At(s, n, a) && At(s, n + |a|, b)
  {
    var ab := a + b;
    if At(s, n, ab) {
      forall j | 0 <= j < |a| ensures s[n + j] == a[j] {
        assert ab[j] == a[j];
      }
      forall j | 0 <= j < |b| ensures s[n + |a| + j] == b[j] {
        assert ab[|a| + j] == b[j];
      }
    }
    if At(s, n, a) && At(s, n + |a|, b) {
      forall j | 0 <= j < |ab| ensures s[n + j] == ab[j] {
        if j < |a| {
          assert ab[j] == a[j];
        } else {
          assert ab[j] == b[j - |a|];
          assert s[n + |a| + (j - |a|)] == b[j - |a|];
        }
      }
    }
  }

  /** A whole stream sits at its start. */
  lemma {:induction false} AtWhole(s: Bits)
    ensures At(s, 0, s)
  {
    forall j | 0 <= j < |s| ensures s[0 + j] == s[j] {
    }
  }

  lemma SliceSnoc<T>(s: seq<T>, a: nat, i: nat)
    requires a <= i < |s|
    ensures s[a..i + 1] == s[a..i] + [s[i]]
  {
  }

  /** Splitting the first n bits at f, read off the bytes the way `devide` does:
      the prefix from bit 0, the suffix from byte f/8 at bit f%8. */
  lemma UnpackSplit(bytes: seq<Byte>, n: nat, f: nat)
    requires f <= n <= 8 * |bytes|
    ensures f / 8 <= |bytes| && f % 8 + (n - f) <= 8 * |bytes[f / 8..]|
    ensures BytesToBits(bytes)[0..f] == Unpack(bytes, n)[..f]
    ensures BytesToBits(bytes[f / 8..])[f % 8..f % 8 + (n - f)] == Unpack(bytes, n)[f..]
  {
    UnpackIsPrefix(bytes, n);
    BytesToBitsFrom(bytes, f, n - f);
  }

  /** Two bit positions coincide exactly when their byte and their place in it do. */
  lemma SamePosition(i: nat, p: nat)
    ensures i == p <==> (i / 8 == p / 8 && i % 8 == p % 8)
  {
    assert i == 8 * (i / 8) + i % 8 && p == 8 * (p / 8) + p % 8;
  }

  /** What `_data[p >> 3] |= (v << (p & 7))` does to the bits. */
  lemma OredBit(bytes: seq<Byte>, p: nat, v: bool, i: nat)
    requires p < 8 * |bytes| && i < 8 * |bytes|
    ensures BytesToBits(bytes[p / 8 := bytes[p / 8] | (if v then BitMask(p % 8) else 0)])[i]
         == (BytesToBits(bytes)[i] || (v && i == p))
  {
    var q := bytes[p / 8 := bytes[p / 8] | (if v then BitMask(p % 8) else 0)];
    SamePosition(i, p);
    if i / 8 == p / 8 {
      OredInByte(bytes, q, p, v, i);
    } else {
      SameByte(bytes, q, i);
    }
  }

  /** Within the byte that holds bit p, or-ing bit p changes bit p only. */
  lemma OredInByte(bytes: seq<Byte>, q: seq<Byte>, p: nat, v: bool, i: nat)
    requires p < 8 * |bytes| && i < 8 * |bytes| && i / 8 == p / 8
    requires q == bytes[p / 8 := bytes[p / 8] | (if v then BitMask(p % 8) else 0)]
    ensures BytesToBits(q)[i] == (BytesToBits(bytes)[i] || (v && i % 8 == p % 8))
  {
    BitOfBytes(q, i);
    BitOfBytes(bytes, i);
    OrBit(bytes[p / 8], p % 8, v, i % 8);
  }

  /** Byte strings that agree on the byte holding bit i agree on bit i. */
  lemma SameByte(a: seq<Byte>, b: seq<Byte>, i: nat)
    requires i < 8 * |a| && |a| == |b| && a[i / 8] == b[i / 8]
    ensures BytesToBits(a)[i] == BytesToBits(b)[i]
  {
    BitOfBytes(a, i);
    BitOfBytes(b, i);
  }

  lemma ClearedBit(bytes: seq<Byte>, p: nat, i: nat)
    requires p < 8 * |bytes| && i < 8 * |bytes|
    ensures BytesToBits(bytes[p / 8 := bytes[p / 8] & (0xff ^ BitMask(p % 8))])[i]
         == (BytesToBits(bytes)[i] && i != p)
  {
    var q := bytes[p / 8 := bytes[p / 8] & (0xff ^ BitMask(p % 8))];
    SamePosition(i, p);
    if i / 8 == p / 8 {
      ClearedInByte(bytes, q, p, i);
    } else {
      SameByte(bytes, q, i);
    }
  }

  /** Within the byte that holds bit p, clearing bit p changes bit p only. */
  lemma ClearedInByte(bytes: seq<Byte>, q: seq<Byte>, p: nat, i: nat)
    requires p < 8 * |bytes| && i < 8 * |bytes| && i / 8 == p / 8
    requires q == bytes[p / 8 := bytes[p / 8] & (0xff ^ BitMask(p % 8))]
    ensures BytesToBits(q)[i] == (BytesToBits(bytes)[i] && i % 8 != p % 8)
  {
    BitOfBytes(q, i);
    BitOfBytes(bytes, i);
    AndNotBit(bytes[p / 8], p % 8, i % 8);
  }

  lemma {:induction false} BitsAfterOr(bytes: seq<Byte>, p: nat, v: bool)
    requires p < 8 * |bytes|
    ensures BytesToBits(bytes[p / 8 := bytes[p / 8] | (if v then BitMask(p % 8) else 0)])
         == BytesToBits(bytes)[p := BytesToBits(bytes)[p] || v]
  {
    var bytes' := bytes[p / 8 := bytes[p / 8] | (if v then BitMask(p % 8) else 0)];
    forall i | 0 <= i < 8 * |bytes|
      ensures BytesToBits(bytes')[i] == BytesToBits(bytes)[p := BytesToBits(bytes)[p] || v][i]
    {
      OredBit(bytes, p, v, i);
    }
  }

  lemma {:induction false} BitsAfterClear(bytes: seq<Byte>, p: nat)
    requires p < 8 * |bytes|
    ensures BytesToBits(bytes[p / 8 := bytes[p / 8] & (0xff ^ BitMask(p % 8))])
         == BytesToBits(bytes)[p := false]
  {
    var bytes' := bytes[p / 8 := bytes[p / 8] & (0xff ^ BitMask(p % 8))];
    forall i | 0 <= i < 8 * |bytes|
      ensures BytesToBits(bytes')[i] == BytesToBits(bytes)[p := false][i]
    {
      ClearedBit(bytes, p, i);
    }
  }

  lemma {:induction false} PushZeroByte(bytes: seq<Byte>)
    ensures BytesToBits(bytes + [0]) == BytesToBits(bytes) + seq(8, _ => false)
  {
    BytesToBitsAppend(bytes, [0]);
    var zero := BytesToBits([0 as Byte]);
    forall k | 0 <= k < 8 ensures zero[k] == false {
      ZeroByteBits(k);
    }
  }

  /** Every bit of the bytes from position n on is clear. */
  /** The first n bits of a byte sequence, built up one bit at a time. */
  function Unpack(bytes: seq<Byte>, n: nat): (r: Bits)
    requires n <= 8 * |bytes|
    ensures |r| == n
  {
    if n == 0 then [] else Unpack(bytes, n - 1) + [ByteBit(bytes[(n - 1) / 8], (n - 1) % 8)]
  }

  lemma {:induction false} UnpackIsPrefix(bytes: seq<Byte>, n: nat)
    requires n <= 8 * |bytes|
    ensures Unpack(bytes, n) == BytesToBits(bytes)[..n]
  {
    if n > 0 {
      UnpackIsPrefix(bytes, n - 1);
      assert BytesToBits(bytes)[..n] == BytesToBits(bytes)[..n - 1] + [BytesToBits(bytes)[n - 1]];
    }
  }

  ghost predicate ClearFrom(bytes: seq<Byte>, n: nat)
  {
    forall i :: n <= i < 8 * |bytes| ==> !BytesToBits(bytes)[i]
  }

  /** A pushed zero byte keeps the bits below n and keeps everything above n clear. */
  lemma {:induction false} GrowClear(bytes: seq<Byte>, n: nat)
    requires ClearFrom(bytes, n) && 8 * |bytes| == n
    ensures ClearFrom(bytes + [0], n)
    ensures BytesToBits(bytes + [0])[..n] == BytesToBits(bytes)
    ensures Unpack(bytes + [0], n) == Unpack(bytes, n)
  {
    PushZeroByte(bytes);
    UnpackIsPrefix(bytes, n);
    UnpackIsPrefix(bytes + [0], n);
  }

  /** Or-ing v into the first clear position n writes bit n and keeps the rest. */
  lemma {:induction false} OrNextBit(bytes: seq<Byte>, n: nat, v: bool)
    requires n < 8 * |bytes| && ClearFrom(bytes, n)
    ensures ClearFrom(bytes[n / 8 := bytes[n / 8] | (if v then BitMask(n % 8) else 0)], n + 1)
    ensures BytesToBits(bytes[n / 8 := bytes[n / 8] | (if v then BitMask(n % 8) else 0)])[..n + 1]
         == BytesToBits(bytes)[..n] + [v]
    ensures Unpack(bytes[n / 8 := bytes[n / 8] | (if v then BitMask(n % 8) else 0)], n + 1)
         == Unpack(bytes, n) + [v]
  {
    UnpackIsPrefix(bytes, n);
    UnpackIsPrefix(bytes[n / 8 := bytes[n / 8] | (if v then BitMask(n % 8) else 0)], n + 1);
    BitsAfterOr(bytes, n, v);
    var b := BytesToBits(bytes);
    assert !b[n];
    assert b[n := b[n] || v][..n + 1] == b[..n] + [v];
  }

  /** Bytes holding n bits whose unused bits are zero are exactly the packing of those bits. */
  lemma {:induction false} PackOfPadded(bytes: seq<Byte>, n: nat)
    requires |bytes| == (n + 7) / 8
    requires forall i :: n <= i < 8 * |bytes| ==> !BytesToBits(bytes)[i]
    ensures bytes == Pack(BytesToBits(bytes)[..n])
  {
    var b := BytesToBits(bytes);
    var s := b[..n];
    forall i | 0 <= i < 8 * |bytes| ensures BitOrZero(s, i) == BitOrZero(b, i) {
    }
    forall j | 0 <= j < |bytes| ensures Pack(s)[j] == Pack(b)[j] {
      assert BitOrZero(s, 8 * j) == BitOrZero(b, 8 * j);
      assert BitOrZero(s, 8 * j + 1) == BitOrZero(b, 8 * j + 1);
      assert BitOrZero(s, 8 * j + 2) == BitOrZero(b, 8 * j + 2);
      assert BitOrZero(s, 8 * j + 3) == BitOrZero(b, 8 * j + 3);
      assert BitOrZero(s, 8 * j + 4) == BitOrZero(b, 8 * j + 4);
      assert BitOrZero(s, 8 * j + 5) == BitOrZero(b, 8 * j + 5);
      assert BitOrZero(s, 8 * j + 6) == BitOrZero(b, 8 * j + 6);
      assert BitOrZero(s, 8 * j + 7) == BitOrZero(b, 8 * j + 7);
    }
    PackUnpack(bytes);
  }

  // ---------------------------------------------------------------------------
  // The value of a bit sequence

  /** The unsigned integer whose bit i is s[i]: what `to_size_t` computes. */
  function ValueOf(s: Bits): nat
  {
    if s == [] then 0 else (if s[0] then 1 else 0) + 2 * ValueOf(s[1..])
  }

  /** The low n bits of v, least significant first: what `add(value, n)` appends. */
  function LowBits(v: nat, n: nat): (r: Bits)
    ensures |r| == n
  {
    if n == 0 then [] else [v % 2 == 1] + LowBits(v / 2, n - 1)
  }

  /** The next bit of `add(value, n)`'s loop is bit i of the original value. */
  lemma {:induction false} LowBitsSnoc(v: nat, i: nat)
    ensures LowBits(v, i + 1) == LowBits(v, i) + [(v / Pow2(i)) % 2 == 1]
  {
    if i > 0 {
      LowBitsSnoc(v / 2, i - 1);
      DivModStep(v, Pow2(i - 1));
    }
  }

  lemma {:induction false} ValueOfBound(s: Bits)
    ensures ValueOf(s) < Pow2(|s|)
  {
    if s != [] {
      ValueOfBound(s[1..]);
    }
  }

  /** The value of a concatenation: the suffix is shifted by the prefix length. */
  lemma {:induction false} ValueOfAppend(a: Bits, b: Bits)
    ensures ValueOf(a + b) == ValueOf(a) + Pow2(|a|) * ValueOf(b)
  {
    if a == [] {
      assert a + b == b;
    } else {
      assert (a + b)[1..] == a[1..] + b && (a + b)[0] == a[0];
      ValueOfAppend(a[1..], b);
      var c := if a[0] then 1 else 0;
      AppendStep(c, ValueOf(a[1..]), Pow2(|a| - 1), ValueOf(b));
    }
  }

  lemma AppendStep(c: nat, x: nat, p: nat, y: nat)
    ensures c + 2 * (x + p * y) == (c + 2 * x) + (2 * p) * y
  {
  }

  /** A product of naturals is a natural. */
  lemma MulNat(a: nat, b: nat)
    ensures a * b >= 0
  {
  }

  lemma MulSplit(d: nat, a: nat, k: nat)
    requires k >= 1
    ensures d * (a + k) == d * a + d * k && d * k >= d
  {
  }

  /** Euclidean division is unique. */
  lemma DivModUnique(v: nat, d: nat, q: nat, r: nat)
    requires d >= 1 && v == d * q + r && r < d
    ensures v / d == q && v % d == r
  {
    var q', r' := v / d, v % d;
    assert v == d * q' + r';
    if q' < q {
      MulSplit(d, q', q - q');
    } else if q < q' {
      MulSplit(d, q, q' - q);
    }
  }

  lemma DivModStep(v: nat, p: nat)
    requires p >= 1
    ensures v % (2 * p) == v % 2 + 2 * ((v / 2) % p)
    ensures v / (2 * p) == (v / 2) / p
  {
    var q := (v / 2) / p;
    var r := (v / 2) % p;
    assert v / 2 == p * q + r;
    assert v == (v % 2) + 2 * (p * q + r);
    assert 2 * (p * q) == (2 * p) * q;
    DivModUnique(v, 2 * p, q, v % 2 + 2 * r);
  }

  /** Shifting right by i+1 is shifting right by i and then by one. */
  lemma DivPow2Step(v: nat, i: nat)
    ensures v / Pow2(i + 1) == (v / Pow2(i)) / 2
  {
    var p := Pow2(i);
    var q := (v / p) / 2;
    var b := (v / p) % 2;
    var r := v % p;
    assert v == p * (2 * q + b) + r;
    assert p * (2 * q + b) == (2 * p) * q + p * b;
    assert p * b + r < 2 * p;
    DivModUnique(v, 2 * p, q, p * b + r);
  }

  /** Appending the low n bits of v and reading them back gives v mod 2^n. */
  lemma {:induction false} ValueOfLowBits(v: nat, n: nat)
    ensures ValueOf(LowBits(v, n)) == v % Pow2(n)
  {
    if n > 0 {
      ValueOfLowBits(v / 2, n - 1);
      assert LowBits(v, n)[1..] == LowBits(v / 2, n - 1);
      DivModStep(v, Pow2(n - 1));
    }
  }

  /** Encoding the value of an n-bit sequence in n bits gives the sequence back. */
  lemma {:induction false} LowBitsOfValue(s: Bits)
    ensures LowBits(ValueOf(s), |s|) == s
  {
    if s != [] {
      LowBitsOfValue(s[1..]);
      var v := ValueOf(s);
      assert v % 2 == (if s[0] then 1 else 0) && v / 2 == ValueOf(s[1..]);
    }
  }

  /** Two sequences of the same length with the same value are the same bits. */
  lemma ValueOfInjective(a: Bits, b: Bits)
    requires |a| == |b| && ValueOf(a) == ValueOf(b)
    ensures a == b
  {
    LowBitsOfValue(a);
    LowBitsOfValue(b);
  }

  /** As numbers, the prefix of f bits is the value mod 2^f and the suffix the value div 2^f. */
  lemma SplitValues(s: Bits, f: nat)
    requires f <= |s|
    ensures ValueOf(s[..f]) == ValueOf(s) % Pow2(f)
    ensures ValueOf(s[f..]) == ValueOf(s) / Pow2(f)
  {
    assert s[..f] + s[f..] == s;
    ValueOfAppend(s[..f], s[f..]);
    ValueOfBound(s[..f]);
    DivModUnique(ValueOf(s), Pow2(f), ValueOf(s[f..]), ValueOf(s[..f]));
  }
}
