/**
 * `command`: an instruction or a piece of one, held in a bit buffer, and its
 * splitting into a prefix of the low bits and a suffix of the rest.
 */
module Commands {
  import opened Bits
  import opened BitBuffer

  /** `devide(ocmd1, ocmd2, fbits)`: refuses a split point past the end; otherwise
      ocmd1 receives bits 0..fbits-1 and ocmd2 the remaining bits. The source
      command is never changed (it is not in the frame). */
  method Devide(icmd: DynBitset, ocmd1: DynBitset, ocmd2: DynBitset, fbits: nat) returns (ok: bool)
    requires icmd.Valid()
    requires icmd != ocmd1 && icmd != ocmd2 && ocmd1 != ocmd2
    modifies ocmd1, ocmd2
    ensures ok <==> fbits <= icmd.bits
    ensures !ok ==> unchanged(ocmd1, ocmd2)
    ensures ok ==> ocmd1.Valid() && ocmd2.Valid()
    ensures ok ==> ocmd1.Bits() == icmd.Bits()[..fbits] && ocmd2.Bits() == icmd.Bits()[fbits..]
    ensures ok ==> ocmd1.Bits() + ocmd2.Bits() == icmd.Bits()
  {
    if icmd.bits < fbits {
      return false;
    }
    ghost var whole := icmd.Bits();
    var icmdData := icmd.data;
    var rem := icmd.bits - fbits;
    UnpackSplit(icmdData, icmd.bits, fbits);
    assert BytesToBits(icmdData)[0..0 + fbits] == whole[..fbits];
    Load(ocmd1, icmdData, fbits, 0);
    Load(ocmd2, icmdData[fbits / 8..], rem, fbits % 8);
    Halves(whole, fbits, ocmd1.Bits(), ocmd2.Bits());
    return true;
  }

  /** `clear` followed by `add(src, cnt, off)`: the buffer holds exactly those bits. */
  method Load(dst: DynBitset, src: seq<Byte>, cnt: nat, off: nat)
    requires off <= 7 && off + cnt <= 8 * |src|
    modifies dst
    ensures dst.Valid() && dst.Bits() == BytesToBits(src)[off..off + cnt]
  {
    dst.Clear();
    var _ := dst.AddFrom(src, cnt, off);
    assert [] + BytesToBits(src)[off..off + cnt] == BytesToBits(src)[off..off + cnt];
  }

  /** The two halves of a split glue back to the whole. */
  lemma {:induction false} Halves(s: Bits, f: nat, lo: Bits, hi: Bits)
    requires f <= |s| && lo == s[..f] && hi == s[f..]
    ensures lo + hi == s
  {
  }

  /** `devide_half`: the split at half the length, which always succeeds. */
  method DevideHalf(icmd: DynBitset, ocmd1: DynBitset, ocmd2: DynBitset)
    requires icmd.Valid()
    requires icmd != ocmd1 && icmd != ocmd2 && ocmd1 != ocmd2
    modifies ocmd1, ocmd2
    ensures ocmd1.Valid() && ocmd2.Valid()
    ensures ocmd1.Bits() == icmd.Bits()[..icmd.bits / 2] && ocmd2.Bits() == icmd.Bits()[icmd.bits / 2..]
    ensures ocmd1.Bits() + ocmd2.Bits() == icmd.Bits()
  {
    var ok := Devide(icmd, ocmd1, ocmd2, icmd.bits / 2);
  }

  /** 0xaffa split at 12 gives 0xffa and 0xa. */
  lemma SplitAt12Example()
    ensures ValueOf(LowBits(0xaffa, 16)[..12]) == 0xffa && ValueOf(LowBits(0xaffa, 16)[12..]) == 0xa
  {
    Pow2Values();
    ValueOfLowBits(0xaffa, 16);
    SplitValues(LowBits(0xaffa, 16), 12);
  }

  /** 0xaffa split in half gives 0xfa and 0xaf. */
  lemma SplitHalfExample()
    ensures ValueOf(LowBits(0xaffa, 16)[..8]) == 0xfa && ValueOf(LowBits(0xaffa, 16)[8..]) == 0xaf
  {
    Pow2Values();
    ValueOfLowBits(0xaffa, 16);
    SplitValues(LowBits(0xaffa, 16), 8);
  }

  /** 0xfa split at 2 gives 0x2 and 0x3e. */
  lemma SplitAt2Example()
    ensures ValueOf(LowBits(0xfa, 8)[..2]) == 0x2 && ValueOf(LowBits(0xfa, 8)[2..]) == 0x3e
  {
    Pow2Values();
    ValueOfLowBits(0xfa, 8);
    SplitValues(LowBits(0xfa, 8), 2);
  }

  /** A fresh buffer holding the low w bits of v (`command c; c.add(v, w)`). */
  method CommandOf(v: nat, w: nat) returns (c: DynBitset)
    ensures fresh(c) && c.Valid() && c.Bits() == LowBits(v, w)
  {
    c := new DynBitset();
    c.AddValue(v, w);
  }

  /** Splitting a command of w bits at w: the first part equals it, the second is
      empty in bits and bytes. */
  method DevideAtEnd(v: nat, w: nat) returns (firstSame: bool, secondBits: nat, secondSize: nat)
    ensures firstSame && secondBits == 0 && secondSize == 0
  {
    var cmd := CommandOf(v, w);
    var cmd1 := new DynBitset();
    var cmd2 := new DynBitset();
    var ok := Devide(cmd, cmd1, cmd2, w);
    assert cmd.Bits()[..w] == cmd.Bits();
    firstSame := Equal(cmd1, cmd);
    secondBits, secondSize := cmd2.bits, |cmd2.data|;
  }

  /** Splitting a command at 0: the first part is empty, the second equals it. */
  method DevideAtStart(v: nat, w: nat) returns (firstBits: nat, firstSize: nat, secondSame: bool)
    ensures firstBits == 0 && firstSize == 0 && secondSame
  {
    var cmd := CommandOf(v, w);
    var cmd1 := new DynBitset();
    var cmd2 := new DynBitset();
    var ok := Devide(cmd, cmd1, cmd2, 0);
    assert cmd.Bits()[0..] == cmd.Bits();
    secondSame := Equal(cmd2, cmd);
    firstBits, firstSize := cmd1.bits, |cmd1.data|;
  }
}
