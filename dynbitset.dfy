/**
 * The append-only bit buffer `dynbitset`: a byte vector that grows one byte
 * at a time and a count of the bits in use. Every append goes through
 * AddImpl; the abstract content is the sequence Bits().
 */
module BitBuffer {
  import opened Bits

  class DynBitset {
    var data: seq<Byte>   // the backing bytes (`_data`)
    var bits: nat         // the number of bits in use (`_bits`)

    /** Exactly ceil(bits/8) bytes, and the unused bits of the last byte are clear. */
    ghost predicate Valid()
      reads this
    {
      && |data| == (bits + 7) / 8
      && ClearFrom(data, bits)
    }

    /** The content: bit i is bit i%8 of byte i/8. */
    function Bits(): (s: Bits)
      reads this
      requires Valid()
      ensures |s| == bits
    {
      Unpack(data, bits)
    }

    /** The content read directly off the bytes. */
    lemma View()
      requires Valid()
      ensures Bits() == BytesToBits(data)[..bits]
    {
      UnpackIsPrefix(data, bits);
    }

    /** The bytes are the packing of the content: nothing else is stored. */
    lemma DataIsPacked()
      requires Valid()
      ensures data == Pack(Bits())
    {
      View();
      PackOfPadded(data, bits);
    }

    constructor ()
      ensures Valid() && bits == 0 && data == [] && Bits() == []
    {
      data := [];
      bits := 0;
    }

    /** Assignment of an empty buffer (`x = command{}`): drops every bit. */
    method Clear()
      modifies this
      ensures Valid() && Bits() == []
    {
      data := [];
      bits := 0;
    }

    /** `add_impl`: grow by a zero byte when every byte is full, then set the new bit. */
    method AddImpl(v: bool)
      requires Valid()
      modifies this
      ensures Valid() && Bits() == old(Bits()) + [v]
      ensures |data| == |old(data)| + (if 8 * |old(data)| < old(bits) + 1 then 1 else 0)
    {
      AppendBit(data, bits, v);
      var bytes := data;
      if |bytes| * 8 < bits + 1 {
        bytes := bytes + [0];
      }
      assert bytes == Grown(data, bits);
      bytes := bytes[bits / 8 := bytes[bits / 8] | (if v then BitMask(bits % 8) else 0)];
      assert bytes == WithBit(Grown(data, bits), bits, v);
      data, bits := bytes, bits + 1;
    }

    /** `add(bool)`. */
    method Add(v: bool)
      requires Valid()
      modifies this
      ensures Valid() && Bits() == old(Bits()) + [v]
    {
      AddImpl(v);
    }

    /** `add(value, bitcnt)`: the low bitcnt bits of value, least significant first. */
    method AddValue(value: nat, bitcnt: nat)
      requires Valid()
      modifies this
      ensures Valid() && Bits() == old(Bits()) + LowBits(value, bitcnt)
    {
      var rest := value;
      for i := 0 to bitcnt
        invariant Valid()
        invariant Bits() == old(Bits()) + LowBits(value, i)
        invariant rest == value / Pow2(i)
      {
        LowBitsSnoc(value, i);
        DivPow2Step(value, i);
        AddImpl(rest % 2 == 1);
        rest := rest / 2;
      }
    }

    /** `add(std::vector<char>, bitcnt)`: the first bitcnt bits of a byte vector. */
    method AddBytes(src: seq<Byte>, bitcnt: nat)
      requires Valid()
      requires bitcnt <= 8 * |src|
      modifies this
      ensures Valid() && Bits() == old(Bits()) + BytesToBits(src)[..bitcnt]
    {
      ghost var raw := BytesToBits(src);
      for i := 0 to bitcnt
        invariant Valid()
        invariant Bits() == old(Bits()) + raw[0..i]
      {
        BitOfBytes(src, i);
        AddImpl(ByteBit(src[i / 8], i % 8));
        SliceSnoc(raw, 0, i);
      }
      assert raw[0..bitcnt] == raw[..bitcnt];
    }

    /** `add(const char *, bitcnt, bitoffset)`: bits bitoffset..bitoffset+bitcnt-1 of
        src; an offset above 7 is refused and nothing is appended. */
    method AddFrom(src: seq<Byte>, bitcnt: nat, bitoffset: nat) returns (ok: bool)
      requires Valid()
      requires bitoffset <= 7 ==> bitoffset + bitcnt <= 8 * |src|
      modifies this
      ensures Valid()
      ensures ok <==> bitoffset <= 7
      ensures ok ==> Bits() == old(Bits()) + BytesToBits(src)[bitoffset..bitoffset + bitcnt]
      ensures !ok ==> Bits() == old(Bits())
    {
      if bitoffset > 7 {
        return false;
      }
      var lastbit := bitcnt + bitoffset;
      ghost var before, raw := Bits(), BytesToBits(src);
      for i := bitoffset to lastbit
        invariant Valid()
        invariant Bits() == before + raw[bitoffset..i]
      {
        BitOfBytes(src, i);
        AddImpl(ByteBit(src[i / 8], i % 8));
        SliceSnoc(raw, bitoffset, i);
      }
      return true;
    }

    /** `add(const dynbitset &)`: every bit of another buffer, given by its content. */
    method AddAll(other: Bits)
      requires Valid()
      modifies this
      ensures Valid() && Bits() == old(Bits()) + other
    {
      for i := 0 to |other|
        invariant Valid()
        invariant Bits() == old(Bits()) + other[..i]
      {
        AddImpl(other[i]);
        assert other[..i + 1] == other[..i] + [other[i]];
      }
    }

    /** `getbit`: reading inside the buffer only. */
    method GetBit(pos: nat) returns (v: bool)
      requires Valid() && pos < bits
      ensures v == Bits()[pos]
    {
      View();
      v := ByteBit(data[pos / 8], pos % 8);
    }

    /** `setbit`: clears or sets one bit; length and every other bit stay. */
    method SetBit(pos: nat, v: bool)
      requires Valid() && pos < bits
      modifies this
      ensures Valid() && bits == old(bits) && |data| == |old(data)|
      ensures Bits() == old(Bits())[pos := v]
    {
      if !v {
        ClearKeeps(data, bits, pos);
        data := data[pos / 8 := data[pos / 8] & (0xff ^ BitMask(pos % 8))];
      } else {
        SetKeeps(data, bits, pos);
        data := data[pos / 8 := data[pos / 8] | BitMask(pos % 8)];
      }
    }

    /** `getseq(start, end)`: a new buffer holding bits start..end-1; this one is untouched. */
    method GetSeq(start: nat, end: nat) returns (r: DynBitset)
      requires Valid() && start <= end <= bits
      ensures fresh(r) && r.Valid() && r.Bits() == Bits()[start..end]
    {
      ghost var s := Bits();
      r := new DynBitset();
      for i := start to end
        invariant r.Valid() && fresh(r)
        invariant r.Bits() == s[start..i]
      {
        var v := GetBit(i);
        r.Add(v);
        SliceSnoc(s, start, i);
      }
    }

    /** `to_size_t`: folds the bits from the top one down, so bit i weighs 2^i. */
    method ToSizeT() returns (r: nat)
      requires Valid()
      ensures r == ValueOf(Bits())
    {
      r := 0;
      for j := 0 to bits
        invariant r == ValueOf(Bits()[bits - j..])
      {
        var b := GetBit(bits - j - 1);
        assert Bits()[bits - j - 1..][1..] == Bits()[bits - j..];
        r := 2 * r + (if b then 1 else 0);
      }
      assert Bits()[0..] == Bits();
    }
  }

  /** `operator<` on buffers: compares values only. */
  method Less(s1: DynBitset, s2: DynBitset) returns (b: bool)
    requires s1.Valid() && s2.Valid()
    ensures b <==> ValueOf(s1.Bits()) < ValueOf(s2.Bits())
  {
    var v1 := s1.ToSizeT();
    var v2 := s2.ToSizeT();
    b := v1 < v2;
  }

  /** `operator==` on buffers: compares values only, so the lengths may differ. */
  method Equal(s1: DynBitset, s2: DynBitset) returns (b: bool)
    requires s1.Valid() && s2.Valid()
    ensures b <==> ValueOf(s1.Bits()) == ValueOf(s2.Bits())
  {
    var v1 := s1.ToSizeT();
    var v2 := s2.ToSizeT();
    b := v1 == v2;
  }

  /** `operator!=`: the negation of `operator==`. */
  method NotEqual(s1: DynBitset, s2: DynBitset) returns (b: bool)
    requires s1.Valid() && s2.Valid()
    ensures b <==> ValueOf(s1.Bits()) != ValueOf(s2.Bits())
  {
    var eq := Equal(s1, s2);
    b := !eq;
  }

  /** Bytes {0xf5, 0xf1} read as a 12-bit buffer have the value 501. */
  lemma ToSizeTExample()
    ensures ValueOf(BytesToBits([0xf5, 0xf1])[..12]) == 501
  {
    var lit := [true, false, true, false, true, true, true, true, true, false, false, false];
    LowBytesExample(lit);
    assert ValueOf(lit) == 501;
  }

  lemma LowBytesExample(lit: Bits)
    requires lit == [true, false, true, false, true, true, true, true, true, false, false, false]
    ensures BytesToBits([0xf5, 0xf1])[..12] == lit
  {
    var s := BytesToBits([0xf5, 0xf1]);
    assert s[..12] == lit;
  }

  /** In a 16-bit buffer holding 0xaffa, `getseq(4, 12)` has the value 0xff. */
  lemma GetSeqExample(s: Bits)
    requires |s| == 16 && ValueOf(s) == 0xaffa
    ensures ValueOf(s[4..12]) == 0xff
  {
    var t := s[4..];
    assert Pow2(4) == 16 && Pow2(8) == 256 by { Pow2Values(); }
    SplitValues(s, 4);
    assert ValueOf(t) == 0xaff;
    SplitValues(t, 8);
    assert t[..8] == s[4..12];
  }

  /** `add(false)` on an empty buffer: one bit, held in one zero byte. */
  method AddBoolExample() returns (bits: nat, data: seq<Byte>)
    ensures bits == 1 && data == [0]
  {
    var s := new DynBitset();
    s.Add(false);
    s.DataIsPacked();
    assert Pack([false]) == [0];
    bits, data := s.bits, s.data;
  }

  /** `add(0xa, 4)` on an empty buffer: four bits, held in the byte 10. */
  method AddValueExample() returns (bits: nat, data: seq<Byte>)
    ensures bits == 4 && data == [10]
  {
    var s := new DynBitset();
    s.AddValue(0xa, 4);
    s.DataIsPacked();
    assert LowBits(0xa, 4) == [false, true, false, true];
    assert Pack([false, true, false, true]) == [10];
    bits, data := s.bits, s.data;
  }

  /** `add({0x05, 0xf1}, 12)`: twelve bits in two bytes, of value 261. */
  method AddBytesExample() returns (bits: nat, size: nat, value: nat)
    ensures bits == 12 && size == 2 && value == 261
  {
    var bytes: seq<Byte> := [0x05, 0xf1];
    var s := new DynBitset();
    s.AddBytes(bytes, 12);
    assert s.Bits() == BytesToBits(bytes)[..12];
    bits, size := s.bits, |s.data|;
    value := s.ToSizeT();
    LowBytesOf(bytes, s.Bits());
  }

  /** `add({0xf5, 0xf1}, 12, 4)`: the twelve bits after the first four, of value 3871. */
  method AddFromExample() returns (bits: nat, size: nat, value: nat)
    ensures bits == 12 && size == 2 && value == 3871
  {
    var bytes: seq<Byte> := [0xf5, 0xf1];
    var s := new DynBitset();
    var ok := s.AddFrom(bytes, 12, 4);
    assert s.Bits() == BytesToBits(bytes)[4..16];
    bits, size := s.bits, |s.data|;
    value := s.ToSizeT();
    HighBytesOf(bytes, s.Bits());
  }

  /** The low twelve bits of 0x05, 0xf1. */
  lemma LowBytesOf(bytes: seq<Byte>, s: Bits)
    requires bytes == [0x05, 0xf1] && s == BytesToBits(bytes)[..12]
    ensures ValueOf(s) == 261
  {
    var lit := [true, false, true, false, false, false, false, false, true, false, false, false];
    LowBytesBits(bytes, s, lit);
    assert ValueOf(lit) == 261;
  }

  lemma LowBytesBits(bytes: seq<Byte>, s: Bits, lit: Bits)
    requires bytes == [0x05, 0xf1] && s == BytesToBits(bytes)[..12]
    requires lit == [true, false, true, false, false, false, false, false, true, false, false, false]
    ensures s == lit
  {
  }

  /** Bits 4..15 of 0xf5, 0xf1. */
  lemma HighBytesOf(bytes: seq<Byte>, s: Bits)
    requires bytes == [0xf5, 0xf1] && s == BytesToBits(bytes)[4..16]
    ensures ValueOf(s) == 3871
  {
    var lit := [true, true, true, true, true, false, false, false, true, true, true, true];
    HighBytesBits(bytes, s, lit);
    assert ValueOf(lit) == 3871;
  }

  lemma HighBytesBits(bytes: seq<Byte>, s: Bits, lit: Bits)
    requires bytes == [0xf5, 0xf1] && s == BytesToBits(bytes)[4..16]
    requires lit == [true, true, true, true, true, false, false, false, true, true, true, true]
    ensures s == lit
  {
  }
}
