/**
 * The mask matcher: a command is cut into 2^POS_SIZE fields of MASK_SIZE bits;
 * a table entry that differs from it in exactly one field lets the command be
 * coded as that entry plus the one field's bits.
 */
module MaskMatcher {
  import opened Wrappers
  import opened Bits
  import opened BitBuffer
  import opened EncodeTables

  lemma MulMono(i: nat, n: nat, m: nat)
    requires i <= n
    ensures i * m <= n * m
  {
  }

  /** A field below n ends no later than field n starts. */
  lemma FieldEnd(j: nat, n: nat, m: nat)
    requires j < n
    ensures 0 <= j * m && j * m + m <= n * m
  {
    MulMono(j + 1, n, m);
    assert (j + 1) * m == j * m + m;
  }

  /** Field j of s: bits j*m .. j*m+m-1, reached by dropping m bits j times
      (empty when s is too short to hold it). */
  function Field(s: Bits, m: nat, j: nat): Bits
  {
    if |s| < m then [] else if j == 0 then s[..m] else Field(s[m..], m, j - 1)
  }

  lemma {:induction false} FieldIsSlice(s: Bits, m: nat, j: nat)
    requires j * m + m <= |s|
    ensures Field(s, m, j) == s[j * m..j * m + m]
  {
    if j > 0 {
      assert j * m == (j - 1) * m + m;
      FieldIsSlice(s[m..], m, j - 1);
      assert s[m..][(j - 1) * m..(j - 1) * m + m] == s[j * m..j * m + m];
    }
  }

  /** The number of fields among the first n in which a and b differ. */
  function DifferingFields(a: Bits, b: Bits, m: nat, n: nat): (r: nat)
    ensures r <= n
  {
    if n == 0 then 0
    else DifferingFields(a, b, m, n - 1) + (if Field(a, m, n - 1) != Field(b, m, n - 1) then 1 else 0)
  }

  /** The highest field among the first n in which a and b differ, or -1. */
  function LastDifferingField(a: Bits, b: Bits, m: nat, n: nat): (r: int)
    ensures -1 <= r < n
    ensures r >= 0 ==> Field(a, m, r) != Field(b, m, r)
  {
    if n == 0 then -1
    else if Field(a, m, n - 1) != Field(b, m, n - 1) then n - 1
    else LastDifferingField(a, b, m, n - 1)
  }

  lemma {:induction false} SomeDifference(a: Bits, b: Bits, m: nat, n: nat)
    requires DifferingFields(a, b, m, n) > 0
    ensures LastDifferingField(a, b, m, n) >= 0
  {
    if Field(a, m, n - 1) == Field(b, m, n - 1) {
      SomeDifference(a, b, m, n - 1);
    }
  }

  /** When exactly one field differs, it is the last differing one and every other field agrees. */
  lemma {:induction false} SingleDifference(a: Bits, b: Bits, m: nat, n: nat)
    requires DifferingFields(a, b, m, n) == 1
    ensures LastDifferingField(a, b, m, n) >= 0
    ensures forall j :: 0 <= j < n && j != LastDifferingField(a, b, m, n) ==> Field(a, m, j) == Field(b, m, j)
  {
    SomeDifference(a, b, m, n);
    if Field(a, m, n - 1) != Field(b, m, n - 1) {
      NoDifference(a, b, m, n - 1);
    } else {
      SingleDifference(a, b, m, n - 1);
    }
  }

  lemma {:induction false} NoDifference(a: Bits, b: Bits, m: nat, n: nat)
    requires DifferingFields(a, b, m, n) == 0
    ensures forall j :: 0 <= j < n ==> Field(a, m, j) == Field(b, m, j)
  {
    if n > 0 {
      NoDifference(a, b, m, n - 1);
    }
  }

  lemma {:induction false} DifferingFieldsMono(a: Bits, b: Bits, m: nat, i: nat, n: nat)
    requires i <= n
    ensures DifferingFields(a, b, m, i) <= DifferingFields(a, b, m, n)
  {
    if i < n {
      DifferingFieldsMono(a, b, m, i, n - 1);
    }
  }

  /** Comparing field j's bits decides the counts for the first j+1 fields. */
  lemma FieldStep(a: Bits, b: Bits, m: nat, j: nat, differs: bool)
    requires differs <==> Field(a, m, j) != Field(b, m, j)
    ensures DifferingFields(a, b, m, j + 1) == DifferingFields(a, b, m, j) + (if differs then 1 else 0)
    ensures LastDifferingField(a, b, m, j + 1) == if differs then j else LastDifferingField(a, b, m, j)
  {
  }

  /** The inner scan of `find_single_missmatch`: compares one field bit by bit,
      stopping at the first difference. */
  method FieldDiffers(entry: Bits, cmd: DynBitset, j: nat, maskSize: nat) returns (finded: bool)
    requires cmd.Valid() && j * maskSize + maskSize <= |entry| && j * maskSize + maskSize <= cmd.bits
    ensures finded <==> Field(entry, maskSize, j) != Field(cmd.Bits(), maskSize, j)
  {
    var start := j * maskSize;
    FieldAt(entry, maskSize, j, start);
    FieldAt(cmd.Bits(), maskSize, j, start);
    finded := BitsDiffer(entry, cmd, start, maskSize);
  }

  /** The bit-by-bit comparison of `find_single_missmatch` over the len bits from
      start, stopping at the first difference. */
  method BitsDiffer(entry: Bits, cmd: DynBitset, start: nat, len: nat) returns (finded: bool)
    requires cmd.Valid() && start + len <= |entry| && start + len <= cmd.bits
    ensures finded <==> entry[start..start + len] != cmd.Bits()[start..start + len]
  {
    ghost var fa, fb := entry[start..start + len], cmd.Bits()[start..start + len];
    finded := false;
    var k := 0;
    while !finded && k < len
      invariant k <= len
      invariant !finded ==> fa[..k] == fb[..k]
      invariant finded ==> fa != fb
    {
      var cmdBit := cmd.GetBit(start + k);
      assert fa[k] == entry[start + k] && fb[k] == cmdBit;
      if entry[start + k] != cmdBit {
        finded := true;
      } else {
        assert fa[..k + 1] == fa[..k] + [fa[k]];
        assert fb[..k + 1] == fb[..k] + [fb[k]];
      }
      k := k + 1;
    }
    if !finded {
      assert fa == fa[..len] && fb == fb[..len];
    }
  }

  /** Field j starts at bit j*m. */
  lemma FieldAt(s: Bits, m: nat, j: nat, start: nat)
    requires start == j * m && start + m <= |s|
    ensures Field(s, m, j) == s[start..start + m]
  {
    FieldIsSlice(s, m, j);
  }

  /** Stopping the scan at the second difference, or at the end, decides the answer. */
  lemma ScanExit(a: Bits, b: Bits, m: nat, j: nat, n: nat, cnt: nat, pos: nat)
    requires j <= n && cnt == DifferingFields(a, b, m, j) <= 2
    requires cnt >= 1 ==> pos == LastDifferingField(a, b, m, j)
    requires cnt < 2 ==> j == n
    ensures cnt == 1 <==> DifferingFields(a, b, m, n) == 1
    ensures cnt == 1 ==> pos == LastDifferingField(a, b, m, n)
  {
    if cnt == 2 {
      DifferingFieldsMono(a, b, m, j, n);
    }
  }

  /** `find_single_missmatch`: scans the fields, stopping at the second difference;
      true exactly when one field differs, and then `missmatchPos` is that field. */
  method FindSingleMismatch(poscnt: nat, maskSize: nat, entry: Bits, cmd: DynBitset)
    returns (single: bool, missmatchPos: nat)
    requires cmd.Valid() && poscnt * maskSize <= |entry| && poscnt * maskSize <= cmd.bits
    ensures single <==> DifferingFields(entry, cmd.Bits(), maskSize, poscnt) == 1
    ensures single ==> missmatchPos == LastDifferingField(entry, cmd.Bits(), maskSize, poscnt)
  {
    ghost var b := cmd.Bits();
    missmatchPos := 0;
    var missmatchCnt := 0;
    var j := 0;
    while missmatchCnt < 2 && j < poscnt
      invariant j <= poscnt
      invariant missmatchCnt == DifferingFields(entry, b, maskSize, j) <= 2
      invariant missmatchCnt >= 1 ==> missmatchPos == LastDifferingField(entry, b, maskSize, j)
    {
      FieldEnd(j, poscnt, maskSize);
      var missmatchFinded := FieldDiffers(entry, cmd, j, maskSize);
      FieldStep(entry, b, maskSize, j, missmatchFinded);
      if missmatchFinded {
        missmatchPos := j;
        missmatchCnt := missmatchCnt + 1;
      }
      j := j + 1;
    }
    ScanExit(entry, b, maskSize, j, poscnt, missmatchCnt, missmatchPos);
    single := missmatchCnt == 1;
  }

  /** `get_mask_by_pos`: the command's bits in field `pos`, as a new buffer. */
  method GetMaskByPos(cmd: DynBitset, maskSize: nat, missmatchPos: nat) returns (mask: DynBitset)
    requires cmd.Valid() && missmatchPos * maskSize + maskSize <= cmd.bits
    ensures fresh(mask) && mask.Valid() && mask.Bits() == Field(cmd.Bits(), maskSize, missmatchPos)
  {
    FieldIsSlice(cmd.Bits(), maskSize, missmatchPos);
    var startPos := missmatchPos * maskSize;
    mask := cmd.GetSeq(startPos, startPos + maskSize);
  }

  /** The first entry differing from c in exactly one of poscnt fields, with that field. */
  function FirstMaskMatch(entries: seq<Bits>, c: Bits, m: nat, poscnt: nat): (r: Option<(nat, nat)>)
    ensures r.Some? ==> r.value.0 < |entries|
  {
    if entries == [] then None
    else if DifferingFields(entries[0], c, m, poscnt) == 1 then
      SomeDifference(entries[0], c, m, poscnt);
      Some((0, LastDifferingField(entries[0], c, m, poscnt) as nat))
    else
      match FirstMaskMatch(entries[1..], c, m, poscnt)
      case None => None
      case Some((i, pos)) => Some((i + 1, pos))
  }

  /** MaskMatch reports the lowest index whose entry differs from c in exactly one
      field, and that field; None when no entry does. */
  lemma {:induction false} MaskMatchMeaning(entries: seq<Bits>, c: Bits, m: nat, poscnt: nat)
    ensures var r := FirstMaskMatch(entries, c, m, poscnt);
            r.Some? ==> && r.value.0 < |entries| && r.value.1 < poscnt
                        && DifferingFields(entries[r.value.0], c, m, poscnt) == 1
                        && r.value.1 == LastDifferingField(entries[r.value.0], c, m, poscnt)
    ensures var r := FirstMaskMatch(entries, c, m, poscnt);
            forall i :: 0 <= i < |entries| && (r.None? || i < r.value.0) ==>
              DifferingFields(entries[i], c, m, poscnt) != 1
  {
    if entries != [] && DifferingFields(entries[0], c, m, poscnt) != 1 {
      MaskMatchMeaning(entries[1..], c, m, poscnt);
      assert forall i :: 1 <= i < |entries| ==> entries[i] == entries[1..][i - 1];
    }
  }

  /** The first entry with a single differing field is the one MaskMatch reports. */
  lemma {:induction false} MaskMatchFirst(entries: seq<Bits>, c: Bits, m: nat, poscnt: nat, i: nat)
    requires i < |entries| && DifferingFields(entries[i], c, m, poscnt) == 1
    requires forall j :: 0 <= j < i ==> DifferingFields(entries[j], c, m, poscnt) != 1
    requires LastDifferingField(entries[i], c, m, poscnt) >= 0
    ensures FirstMaskMatch(entries, c, m, poscnt) == Some((i, LastDifferingField(entries[i], c, m, poscnt) as nat))
  {
    if i > 0 {
      assert forall k :: 1 <= k < |entries| ==> entries[k] == entries[1..][k - 1];
      MaskMatchFirst(entries[1..], c, m, poscnt, i - 1);
    }
  }

  lemma {:induction false} MaskMatchNone(entries: seq<Bits>, c: Bits, m: nat, poscnt: nat)
    requires forall j :: 0 <= j < |entries| ==> DifferingFields(entries[j], c, m, poscnt) != 1
    ensures FirstMaskMatch(entries, c, m, poscnt).None?
  {
    if entries != [] {
      assert forall k :: 1 <= k < |entries| ==> entries[k] == entries[1..][k - 1];
      MaskMatchNone(entries[1..], c, m, poscnt);
    }
  }

  /** One step of `find_mask`: test one entry and, on a single mismatch, cut out the mask. */
  method TryEntry(entry: Bits, poscnt: nat, maskSize: nat, cmd: DynBitset)
    returns (single: bool, mask: DynBitset, missmatchPos: nat)
    requires cmd.Valid() && poscnt * maskSize <= cmd.bits && poscnt * maskSize <= |entry|
    ensures fresh(mask) && mask.Valid()
    ensures single <==> DifferingFields(entry, cmd.Bits(), maskSize, poscnt) == 1
    ensures single ==> && missmatchPos == LastDifferingField(entry, cmd.Bits(), maskSize, poscnt)
                       && mask.Bits() == Field(cmd.Bits(), maskSize, missmatchPos)
  {
    single, missmatchPos := FindSingleMismatch(poscnt, maskSize, entry, cmd);
    if single {
      SomeDifference(entry, cmd.Bits(), maskSize, poscnt);
      FieldEnd(missmatchPos, poscnt, maskSize);
      mask := GetMaskByPos(cmd, maskSize, missmatchPos);
    } else {
      mask := new DynBitset();
    }
  }

  /** `find_mask`: scans the table in index order until an entry with a single
      differing field turns up; reports the field, the command's bits there and the index. */
  method FindMask(t: EncodeTable, posSize: nat, maskSize: nat, cmd: DynBitset)
    returns (finded: bool, mask: DynBitset, pos: nat, indx: nat)
    requires cmd.Valid() && Pow2(posSize) * maskSize <= cmd.bits
    requires forall i :: 0 <= i < |t.entries| ==> Pow2(posSize) * maskSize <= |t.entries[i]|
    ensures fresh(mask) && mask.Valid()
    ensures finded <==> FirstMaskMatch(t.entries, cmd.Bits(), maskSize, Pow2(posSize)).Some?
    ensures finded ==> && FirstMaskMatch(t.entries, cmd.Bits(), maskSize, Pow2(posSize)) == Some((indx, pos))
                       && mask.Bits() == Field(cmd.Bits(), maskSize, pos)
  {
    ghost var b := cmd.Bits();
    var poscnt := Pow2(posSize);
    finded := false;
    mask := new DynBitset();
    pos, indx := 0, 0;
    var i := 0;
    while !finded && i < |t.entries|
      invariant i <= |t.entries| && fresh(mask) && mask.Valid()
      invariant !finded ==> forall j :: 0 <= j < i ==> DifferingFields(t.entries[j], b, maskSize, poscnt) != 1
      invariant finded ==> && FirstMaskMatch(t.entries, b, maskSize, poscnt) == Some((indx, pos))
                           && mask.Bits() == Field(b, maskSize, pos)
    {
      var single, m, missmatchPos := TryEntry(t.entries[i], poscnt, maskSize, cmd);
      if single {
        MaskMatchFirst(t.entries, b, maskSize, poscnt, i);
        finded, mask, pos, indx := true, m, missmatchPos, i;
      }
      i := i + 1;
    }
    if !finded {
      MaskMatchNone(t.entries, b, maskSize, poscnt);
    }
  }

  /** Two sequences whose fields i..n-1 all agree agree on bits i*m .. n*m-1. */
  lemma {:induction false} FieldsAgree(a: Bits, b: Bits, m: nat, i: nat, n: nat)
    requires i <= n && n * m <= |a| && n * m <= |b|
    requires forall j :: i <= j < n ==> Field(a, m, j) == Field(b, m, j)
    ensures i * m <= n * m
    ensures a[i * m..n * m] == b[i * m..n * m]
    decreases n - i
  {
    if i < n {
      FieldEnd(i, n, m);
      FieldIsSlice(a, m, i);
      FieldIsSlice(b, m, i);
      assert (i + 1) * m == i * m + m;
      FieldsAgree(a, b, m, i + 1, n);
      assert a[i * m..n * m] == Field(a, m, i) + a[(i + 1) * m..n * m];
      assert b[i * m..n * m] == Field(b, m, i) + b[(i + 1) * m..n * m];
    }
  }

  /** A sequence equal to c outside bits x..x+m-1, with c's bits put back there, is c. */
  lemma Splice(e: Bits, c: Bits, x: nat, m: nat)
    requires x + m <= |c| == |e| && e[..x] == c[..x] && e[x + m..] == c[x + m..]
    ensures e[..x] + c[x..x + m] + e[x + m..] == c
  {
    assert c[..x] + c[x..x + m] == c[..x + m];
    assert c[..x + m] + c[x + m..] == c;
  }

  /** If e and c agree on every field but field pos, putting c's field pos into e gives c. */
  lemma {:induction false} SpliceField(e: Bits, c: Bits, m: nat, pos: nat, n: nat)
    requires pos < n && |c| == n * m && |e| == |c|
    requires forall j :: 0 <= j < n && j != pos ==> Field(e, m, j) == Field(c, m, j)
    ensures pos * m + m <= |c|
    ensures e[..pos * m] + Field(c, m, pos) + e[pos * m + m..] == c
  {
    FieldEnd(pos, n, m);
    FieldsAgree(e, c, m, 0, pos);
    FieldsAgree(e, c, m, pos + 1, n);
    var x := pos * m;
    assert 0 * m == 0 && (pos + 1) * m == x + m;
    assert e[..x] == e[0 * m..pos * m];
    assert c[..x] == c[0 * m..pos * m];
    FieldIsSlice(c, m, pos);
    Splice(e, c, x, m);
  }

  /** Writing the command's bits of the reported field over the reported entry
      gives back the command. */
  lemma MaskRestores(entries: seq<Bits>, c: Bits, m: nat, poscnt: nat)
    requires |c| == poscnt * m && forall k :: 0 <= k < |entries| ==> |entries[k]| == |c|
    requires FirstMaskMatch(entries, c, m, poscnt).Some?
    ensures var (i, pos) := FirstMaskMatch(entries, c, m, poscnt).value;
            && pos * m + m <= |c|
            && entries[i][..pos * m] + Field(c, m, pos) + entries[i][pos * m + m..] == c
  {
    MaskMatchMeaning(entries, c, m, poscnt);
    var (i, pos) := FirstMaskMatch(entries, c, m, poscnt).value;
    SingleDifference(entries[i], c, m, poscnt);
    SpliceField(entries[i], c, m, pos, poscnt);
  }
}
