/**
 * `dict_make_encode_table`: counts how often each value occurs in a command
 * stream, ranks the values by count and keeps the 2^INDX_SIZE most frequent
 * ones as the table.
 */
module DictionaryBuilder {
  import opened Bits
  import opened Wrappers
  import opened Sorting
  import opened EncodeTables

  /** How many times c occurs in the stream. */
  function Occurrences(cmds: seq<Bits>, c: Bits): nat
  {
    multiset(cmds)[c]
  }

  function Min(a: nat, b: nat): nat
  {
    if a < b then a else b
  }

  /** The distinct values of the stream. */
  ghost function Values(cmds: seq<Bits>): set<Bits>
  {
    set c | c in cmds
  }

  /** What the builder promises: a valid table of distinct values from the stream,
      as many as fit or as there are, none less frequent than a value left out.
      The order among equal counts is left open, as `std::sort` leaves it. */
  ghost predicate IsFrequencyTable(t: EncodeTable, cmds: seq<Bits>)
  {
    && ValidTable(t)
    && Distinct(t.entries)
    && (forall i :: 0 <= i < |t.entries| ==> t.entries[i] in cmds)
    && |t.entries| == Min(Pow2(t.indexSize), |Values(cmds)|)
    && (forall i, c :: 0 <= i < |t.entries| && c in cmds && c !in t.entries ==>
          Occurrences(cmds, c) <= Occurrences(cmds, t.entries[i]))
  }

  /** The comparison `p1.second > p2.second` as an ascending key. */
  function ByCountDesc(p: (Bits, nat)): int
  {
    -(p.1 as int)
  }

  /** A sequence without repetitions has as many elements as its set. */
  lemma {:induction false} DistinctCard(s: seq<Bits>)
    requires Distinct(s)
    ensures |set c | c in s| == |s|
  {
    if s != [] {
      var rest := s[1..];
      assert Distinct(rest) by {
        forall i, j | 0 <= i < j < |rest| ensures rest[i] != rest[j] {
          assert rest[i] == s[i + 1] && rest[j] == s[j + 1];
        }
      }
      DistinctCard(rest);
      assert s[0] !in rest by {
        forall j | 0 <= j < |rest| ensures rest[j] != s[0] {
          assert rest[j] == s[j + 1];
        }
      }
      assert (set c | c in s) == (set c | c in rest) + {s[0]};
    }
  }

  /** The ranked counters: every pair is a counted value with its count, every counted
      value has a pair, and no value has two. */
  lemma RankedPairs(keys: seq<Bits>, data: map<Bits, nat>, pairs: seq<(Bits, nat)>, ranked: seq<(Bits, nat)>)
    requires Distinct(keys) && forall c :: c in keys <==> c in data
    requires |pairs| == |keys| && forall j :: 0 <= j < |keys| ==> pairs[j] == (keys[j], data[keys[j]])
    requires multiset(ranked) == multiset(pairs)
    ensures |ranked| == |keys|
    ensures forall j :: 0 <= j < |ranked| ==> ranked[j].0 in data && ranked[j].1 == data[ranked[j].0]
    ensures forall c :: c in data ==> exists j :: 0 <= j < |ranked| && ranked[j].0 == c
    ensures forall i, j :: 0 <= i < j < |ranked| ==> ranked[i].0 != ranked[j].0
  {
    assert |ranked| == |multiset(ranked)| == |multiset(pairs)| == |pairs|;
    forall j | 0 <= j < |ranked| ensures ranked[j].0 in data && ranked[j].1 == data[ranked[j].0] {
      assert ranked[j] in multiset(pairs);
    }
    forall c | c in data ensures exists j :: 0 <= j < |ranked| && ranked[j].0 == c {
      var k :| 0 <= k < |keys| && keys[k] == c;
      assert pairs[k] in multiset(ranked);
    }
    assert Distinct(pairs) by {
      forall i, j | 0 <= i < j < |pairs| ensures pairs[i] != pairs[j] {
        assert keys[i] != keys[j];
      }
    }
    DistinctMultiset(pairs);
    DistinctMultiset(ranked);
  }

  /** The counting loop: a map from each value of the stream to its number of
      occurrences; `keys` lists the map's domain without repetition. */
  method CountOccurrences(cmds: seq<Bits>) returns (data: map<Bits, nat>, keys: seq<Bits>)
    ensures forall c :: c in data <==> c in cmds
    ensures forall c :: c in data ==> data[c] == Occurrences(cmds, c)
    ensures Distinct(keys) && forall c :: c in keys <==> c in data
    ensures |keys| == |Values(cmds)|
  {
    data := map[];
    keys := [];
    for i := 0 to |cmds|
      invariant forall c :: c in data <==> c in cmds[..i]
      invariant forall c :: c in data ==> data[c] == multiset(cmds[..i])[c]
      invariant Distinct(keys)
      invariant forall c :: c in keys <==> c in data
    {
      assert cmds[..i + 1] == cmds[..i] + [cmds[i]];
      var c := cmds[i];
      if c in data {
        data := data[c := data[c] + 1];
      } else {
        data := data[c := 1];
        keys := keys + [c];
      }
    }
    assert cmds[..|cmds|] == cmds;
    assert Values(cmds) == set c | c in keys;
    DistinctCard(keys);
  }

  /** The (value, count) pairs of the counters, most frequent first. */
  method RankByCount(data: map<Bits, nat>, keys: seq<Bits>) returns (mostFreq: seq<(Bits, nat)>)
    requires Distinct(keys) && forall c :: c in keys <==> c in data
    ensures |mostFreq| == |keys| && SortedBy(mostFreq, ByCountDesc)
    ensures forall j :: 0 <= j < |mostFreq| ==> mostFreq[j].0 in data && mostFreq[j].1 == data[mostFreq[j].0]
    ensures forall c :: c in data ==> exists j :: 0 <= j < |mostFreq| && mostFreq[j].0 == c
    ensures forall i, j :: 0 <= i < j < |mostFreq| ==> mostFreq[i].0 != mostFreq[j].0
  {
    mostFreq := [];
    for i := 0 to |keys|
      invariant |mostFreq| == i
      invariant forall j :: 0 <= j < i ==> mostFreq[j] == (keys[j], data[keys[j]])
    {
      mostFreq := mostFreq + [(keys[i], data[keys[i]])];
    }
    ghost var pairs := mostFreq;
    mostFreq := SortBy(mostFreq, ByCountDesc);
    RankedPairs(keys, data, pairs, mostFreq);
  }

  /** `dict_make_encode_table`: count, rank, keep the first 2^INDX_SIZE, build the table. */
  method MakeEncodeTable(cmds: seq<Bits>, cmdLen: nat, indexSize: nat) returns (t: EncodeTable)
    requires AllWidth(cmds, 8 * cmdLen)
    ensures t.cmdLen == cmdLen && t.indexSize == indexSize
    ensures IsFrequencyTable(t, cmds)
  {
    var data, keys := CountOccurrences(cmds);
    var mostFreq := RankByCount(data, keys);

    var entabEntries: seq<Bits> := [];
    var maxEntabSize := Pow2(indexSize);
    var i := 0;
    while i < maxEntabSize && i < |mostFreq|
      invariant i <= maxEntabSize && i <= |mostFreq| && |entabEntries| == i
      invariant forall j :: 0 <= j < i ==> entabEntries[j] == mostFreq[j].0
    {
      entabEntries := entabEntries + [mostFreq[i].0];
      i := i + 1;
    }
    assert AllWidth(entabEntries, 8 * cmdLen) by {
      forall j | 0 <= j < i ensures |entabEntries[j]| == 8 * cmdLen {
        assert entabEntries[j] in cmds;
      }
    }
    var r := Build(cmdLen, indexSize, entabEntries);
    t := r.value;
    SelectedTable(cmds, data, mostFreq, entabEntries, t);
  }

  /** The first entries of the ranked counters, sorted into a table, form a frequency table. */
  lemma SelectedTable(cmds: seq<Bits>, data: map<Bits, nat>, ranked: seq<(Bits, nat)>,
                      selected: seq<Bits>, t: EncodeTable)
    requires forall c :: c in data <==> c in cmds
    requires forall c :: c in data ==> data[c] == multiset(cmds)[c]
    requires |ranked| == |Values(cmds)| && SortedBy(ranked, ByCountDesc)
    requires forall j :: 0 <= j < |ranked| ==> ranked[j].0 in data && ranked[j].1 == data[ranked[j].0]
    requires forall c :: c in data ==> exists j :: 0 <= j < |ranked| && ranked[j].0 == c
    requires forall i, j :: 0 <= i < j < |ranked| ==> ranked[i].0 != ranked[j].0
    requires |selected| == Min(Pow2(t.indexSize), |ranked|)
    requires forall j :: 0 <= j < |selected| ==> selected[j] == ranked[j].0
    requires ValidTable(t) && multiset(t.entries) == multiset(selected)
    ensures IsFrequencyTable(t, cmds)
  {
    assert |t.entries| == |multiset(t.entries)| == |selected|;
    assert Distinct(selected);
    DistinctMultiset(selected);
    DistinctMultiset(t.entries);
    forall i | 0 <= i < |t.entries| ensures t.entries[i] in cmds {
      assert t.entries[i] in multiset(selected);
    }
    forall i, c | 0 <= i < |t.entries| && c in cmds && c !in t.entries
      ensures Occurrences(cmds, c) <= Occurrences(cmds, t.entries[i])
    {
      assert t.entries[i] in multiset(selected);
      var a :| 0 <= a < |selected| && selected[a] == t.entries[i];
      var b :| 0 <= b < |ranked| && ranked[b].0 == c;
      assert c !in multiset(t.entries);
      assert c !in selected;
      assert ByCountDesc(ranked[a]) <= ByCountDesc(ranked[b]);
    }
  }

  lemma ExampleCounts(a: Bits, b: Bits, c: Bits, d: Bits)
    requires a != b && a != c && a != d && b != c && b != d && c != d
    ensures Occurrences([a, a, a, b, c, c, d], a) == 3 && Occurrences([a, a, a, b, c, c, d], c) == 2
    ensures Occurrences([a, a, a, b, c, c, d], b) == 1 && Occurrences([a, a, a, b, c, c, d], d) == 1
    ensures |Values([a, a, a, b, c, c, d])| == 4
  {
    var cmds := [a, a, a, b, c, c, d];
    assert multiset(cmds) == multiset{a, a, a, b, c, c, d};
    ExampleValues(a, b, c, d);
  }

  lemma ExampleValues(a: Bits, b: Bits, c: Bits, d: Bits)
    requires a != b && a != c && a != d && b != c && b != d && c != d
    ensures |Values([a, a, a, b, c, c, d])| == 4
  {
    assert Values([a, a, a, b, c, c, d]) == {a, b, c, d};
    assert |{a, b, c, d}| == 4 by {
      assert {a, b, c, d} == {a} + {b} + {c} + {d};
      assert |{a} + {b}| == 2;
      assert |{a} + {b} + {c}| == 3;
    }
  }


  /** Counts 3, 1, 2, 1 for four values and room for two entries: the table holds
      the two most frequent values, the first and the third. */
  lemma BuilderExample(a: Bits, b: Bits, c: Bits, d: Bits, t: EncodeTable)
    requires a != b && a != c && a != d && b != c && b != d && c != d
    requires t.indexSize == 1 && IsFrequencyTable(t, [a, a, a, b, c, c, d])
    ensures |t.entries| == 2 && a in t.entries && c in t.entries
  {
    var cmds := [a, a, a, b, c, c, d];
    ExampleCounts(a, b, c, d);
    assert Pow2(1) == 2;
    assert |t.entries| == 2;
    var e0, e1 := t.entries[0], t.entries[1];
    assert e0 != e1;
    assert e0 in cmds && e1 in cmds;
  }
}
