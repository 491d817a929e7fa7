/**
 * `encode_table<CMDLEN, INDX_SIZE>`: at most 2^INDX_SIZE entries of CMDLEN
 * bytes each, kept in ascending order of their values, so that an index of
 * INDX_SIZE bits names any entry and lookup is a binary search.
 */
module EncodeTables {
  import opened Wrappers
  import opened Bits
  import opened Sorting
  import opened BitBuffer

  /** The template parameters travel with the entries. */
  datatype EncodeTable = EncodeTable(cmdLen: nat, indexSize: nat, entries: seq<Bits>)

  /** The order the constructor sorts by: `operator<` of `command`, a comparison of values. */
  function Key(c: Bits): int
  {
    ValueOf(c)
  }

  /** What construction guarantees: capacity, uniform width and ascending order. */
  ghost predicate ValidTable(t: EncodeTable)
  {
    && |t.entries| <= Pow2(t.indexSize)
    && (forall i :: 0 <= i < |t.entries| ==> |t.entries[i]| == 8 * t.cmdLen)
    && Ascending(t.entries)
  }

  /** Entries in ascending order of their values. */
  ghost predicate Ascending(entries: seq<Bits>)
  {
    forall i, j {:trigger Key(entries[i]), Key(entries[j])} :: 0 <= i < j < |entries| ==> Key(entries[i]) <= Key(entries[j])
  }

  /** Ascending is the sort order of the constructor. */
  lemma AscendingSorted(entries: seq<Bits>)
    ensures Ascending(entries) <==> SortedBy(entries, Key)
  {
  }

  /** The default constructor: a table without entries. */
  function EmptyTable(cmdLen: nat, indexSize: nat): (t: EncodeTable)
    ensures ValidTable(t) && t.entries == [] && t.cmdLen == cmdLen && t.indexSize == indexSize
  {
    EncodeTable(cmdLen, indexSize, [])
  }

  ghost predicate AllWidth(entries: seq<Bits>, width: nat)
  {
    forall i :: 0 <= i < |entries| ==> |entries[i]| == width
  }

  /** The validating constructor as a value: too many entries, then a wrong
      width, are refused; otherwise the entries are sorted, duplicates kept. */
  function MakeTable(cmdLen: nat, indexSize: nat, entries: seq<Bits>): (r: Result<EncodeTable>)
    ensures r.Err? <==> |entries| > Pow2(indexSize) || !AllWidth(entries, 8 * cmdLen)
    ensures r.Err? ==> r.error == (if |entries| > Pow2(indexSize) then CapacityExceeded else BadCommandLength)
    ensures r.Ok? ==> && ValidTable(r.value)
                      && r.value.cmdLen == cmdLen && r.value.indexSize == indexSize
                      && multiset(r.value.entries) == multiset(entries)
  {
    if |entries| > Pow2(indexSize) then Err(CapacityExceeded)
    else if !(forall i | 0 <= i < |entries| :: |entries[i]| == 8 * cmdLen) then Err(BadCommandLength)
    else
      var sorted := SortBy(entries, Key);
      AscendingSorted(sorted);
      assert forall i :: 0 <= i < |sorted| ==> sorted[i] in multiset(entries);
      Ok(EncodeTable(cmdLen, indexSize, sorted))
  }

  /** `encode_table(entries)`: checks the count, then every entry's length, then sorts. */
  method Build(cmdLen: nat, indexSize: nat, entries: seq<Bits>) returns (r: Result<EncodeTable>)
    ensures r == MakeTable(cmdLen, indexSize, entries)
  {
    var entriesCnt := |entries|;
    if entriesCnt > Pow2(indexSize) {
      return Err(CapacityExceeded);
    }
    var requiredCmdlen := 8 * cmdLen;
    for i := 0 to |entries|
      invariant forall j :: 0 <= j < i ==> |entries[j]| == requiredCmdlen
    {
      if |entries[i]| != requiredCmdlen {
        return Err(BadCommandLength);
      }
    }
    return Ok(EncodeTable(cmdLen, indexSize, SortBy(entries, Key)));
  }

  /** The lowest index whose entry has value v, or -1 when there is none. */
  function IndexOf(entries: seq<Bits>, v: nat): (r: int)
    ensures -1 <= r < |entries|
    ensures r >= 0 ==> ValueOf(entries[r]) == v && forall j {:trigger ValueOf(entries[j])} :: 0 <= j < r ==> ValueOf(entries[j]) != v
    ensures r == -1 <==> forall j {:trigger ValueOf(entries[j])} :: 0 <= j < |entries| ==> ValueOf(entries[j]) != v
  {
    if entries == [] then -1
    else if ValueOf(entries[0]) == v then 0
    else
      var k := IndexOf(entries[1..], v);
      assert forall j :: 1 <= j < |entries| ==> entries[j] == entries[1..][j - 1];
      if k < 0 then -1 else k + 1
  }

  /** `find`: `std::lower_bound` for the first entry not below the command, then an
      equality check; both compare values. */
  method Find(t: EncodeTable, cmd: DynBitset) returns (r: int)
    requires Ascending(t.entries) && cmd.Valid()
    ensures r == IndexOf(t.entries, ValueOf(cmd.Bits()))
  {
    var v := cmd.ToSizeT();
    var lo, hi := 0, |t.entries|;
    while lo < hi
      invariant 0 <= lo <= hi <= |t.entries|
      invariant forall i :: 0 <= i < lo ==> Key(t.entries[i]) < v
      invariant forall i :: hi <= i < |t.entries| ==> v <= Key(t.entries[i])
    {
      var mid := (lo + hi) / 2;
      if Key(t.entries[mid]) < v {
        BelowMid(t.entries, mid, v);
        lo := mid + 1;
      } else {
        AboveMid(t.entries, mid, v);
        hi := mid;
      }
    }
    Located(t.entries, lo, v);
    if lo == |t.entries| || Key(t.entries[lo]) != v {
      return -1;
    }
    return lo;
  }

  /** In ascending entries, everything up to an entry below v is below v. */
  lemma BelowMid(entries: seq<Bits>, mid: nat, v: nat)
    requires Ascending(entries) && mid < |entries| && Key(entries[mid]) < v
    ensures forall i :: 0 <= i <= mid ==> Key(entries[i]) < v
  {
    forall i | 0 <= i < mid ensures Key(entries[i]) < v {
      assert Key(entries[i]) <= Key(entries[mid]);
    }
  }

  /** In ascending entries, everything from an entry not below v is not below v. */
  lemma AboveMid(entries: seq<Bits>, mid: nat, v: nat)
    requires Ascending(entries) && mid < |entries| && v <= Key(entries[mid])
    ensures forall i :: mid <= i < |entries| ==> v <= Key(entries[i])
  {
    forall i | mid < i < |entries| ensures v <= Key(entries[i]) {
      assert Key(entries[mid]) <= Key(entries[i]);
    }
  }

  /** Where the search stops, the entry is the first of value v if any entry is. */
  lemma Located(entries: seq<Bits>, lo: nat, v: nat)
    requires Ascending(entries) && lo <= |entries|
    requires forall i :: 0 <= i < lo ==> Key(entries[i]) < v
    requires forall i :: lo <= i < |entries| ==> v <= Key(entries[i])
    ensures IndexOf(entries, v) == if lo < |entries| && Key(entries[lo]) == v then lo else -1
  {
    if lo == |entries| || Key(entries[lo]) != v {
      forall j | 0 <= j < |entries| ensures ValueOf(entries[j]) != v {
        if lo <= j {
          assert Key(entries[lo]) <= Key(entries[j]);
        }
      }
    } else {
      assert forall j :: 0 <= j < lo ==> ValueOf(entries[j]) != v;
    }
  }

  /** Among entries of the command's own width, `find` answers membership:
      it is non-negative exactly when the command is an entry, and then names it. */
  lemma IndexOfMember(t: EncodeTable, c: Bits)
    requires ValidTable(t) && |c| == 8 * t.cmdLen
    ensures IndexOf(t.entries, ValueOf(c)) >= 0 <==> c in t.entries
    ensures IndexOf(t.entries, ValueOf(c)) >= 0 ==> t.entries[IndexOf(t.entries, ValueOf(c))] == c
  {
    var r := IndexOf(t.entries, ValueOf(c));
    if r >= 0 {
      ValueOfInjective(t.entries[r], c);
    }
    if c in t.entries {
      var i :| 0 <= i < |t.entries| && t.entries[i] == c;
      assert ValueOf(t.entries[i]) == ValueOf(c);
    }
  }
}
