/**
 * Sorting by an integer key, standing in for `std::sort` with a comparison on
 * that key. Any correct sort has the postcondition stated here; this one is an
 * insertion sort that keeps elements of equal key in their input order.
 */
module Sorting {

  ghost predicate SortedBy<T>(s: seq<T>, key: T -> int)
  {
    forall i, j :: 0 <= i < j < |s| ==> key(s[i]) <= key(s[j])
  }

  /** Inserts x after every element whose key is not above its own. */
  function InsertBy<T>(s: seq<T>, x: T, key: T -> int): (r: seq<T>)
    requires SortedBy(s, key)
    ensures SortedBy(r, key)
    ensures multiset(r) == multiset(s) + multiset{x}
  {
    if s == [] then [x]
    else if key(x) < key(s[0]) then [x] + s
    else
      var rest := InsertBy(s[1..], x, key);
      HeadBelow(s, rest, x, key);
      [s[0]] + rest
  }

  /** The head of a sorted sequence stays first after inserting into its tail. */
  lemma HeadBelow<T>(s: seq<T>, rest: seq<T>, x: T, key: T -> int)
    requires s != [] && SortedBy(s, key) && SortedBy(rest, key) && key(s[0]) <= key(x)
    requires multiset(rest) == multiset(s[1..]) + multiset{x}
    ensures SortedBy([s[0]] + rest, key)
    ensures multiset([s[0]] + rest) == multiset(s) + multiset{x}
  {
    forall j | 0 <= j < |rest| ensures key(s[0]) <= key(rest[j]) {
      assert rest[j] in multiset(rest);
      if rest[j] != x {
        assert rest[j] in multiset(s[1..]);
        var k :| 1 <= k < |s| && s[k] == rest[j];
      }
    }
    var r := [s[0]] + rest;
    forall i, j | 0 <= i < j < |r| ensures key(r[i]) <= key(r[j]) {
      if i > 0 {
        assert r[i] == rest[i - 1] && r[j] == rest[j - 1];
      } else {
        assert r[j] == rest[j - 1];
      }
    }
    assert s == [s[0]] + s[1..];
  }

  /** The elements of s in ascending key order. */
  function SortBy<T>(s: seq<T>, key: T -> int): (r: seq<T>)
    ensures SortedBy(r, key)
    ensures multiset(r) == multiset(s)
    ensures |r| == |s|
  {
    if s == [] then []
    else
      var init := s[..|s| - 1];
      assert s == init + [s[|s| - 1]];
      var r := InsertBy(SortBy(init, key), s[|s| - 1], key);
      assert |r| == |multiset(r)|;
      r
  }

  /** An element whose key is at least every key of a sorted sequence goes at its end. */
  lemma {:induction false} InsertAtEnd<T>(s: seq<T>, x: T, key: T -> int)
    requires SortedBy(s, key)
    requires forall i :: 0 <= i < |s| ==> key(s[i]) <= key(x)
    ensures InsertBy(s, x, key) == s + [x]
  {
    if s != [] {
      InsertAtEnd(s[1..], x, key);
      assert [s[0]] + (s[1..] + [x]) == s + [x];
    }
  }

  /** A sorted sequence is its sorted front with its last element inserted. */
  lemma LastInserted<T>(s: seq<T>, key: T -> int)
    requires SortedBy(s, key) && s != []
    ensures SortedBy(s[..|s| - 1], key)
    ensures InsertBy(s[..|s| - 1], s[|s| - 1], key) == s
  {
    var init, last := s[..|s| - 1], s[|s| - 1];
    assert SortedBy(init, key) by {
      forall i, j | 0 <= i < j < |init| ensures key(init[i]) <= key(init[j]) {
        assert init[i] == s[i] && init[j] == s[j];
      }
    }
    forall i | 0 <= i < |init| ensures key(init[i]) <= key(last) {
      assert init[i] == s[i];
    }
    InsertAtEnd(init, last, key);
    assert init + [last] == s;
  }

  /** Sorting a sorted sequence leaves it as it is. */
  lemma {:induction false} SortOfSorted<T>(s: seq<T>, key: T -> int)
    requires SortedBy(s, key)
    ensures SortBy(s, key) == s
  {
    if s != [] {
      LastInserted(s, key);
      SortOfSorted(s[..|s| - 1], key);
    }
  }

  ghost predicate Distinct<T>(s: seq<T>)
  {
    forall i, j :: 0 <= i < j < |s| ==> s[i] != s[j]
  }

  /** A sequence has no repeated element exactly when its multiset counts every element at most once. */
  lemma {:induction false} DistinctMultiset<T>(s: seq<T>)
    ensures Distinct(s) <==> forall x :: multiset(s)[x] <= 1
  {
    if s != [] {
      var rest := s[1..];
      DistinctMultiset(rest);
      assert s == [s[0]] + rest;
      if Distinct(s) {
        assert Distinct(rest) by {
          forall i, j | 0 <= i < j < |rest| ensures rest[i] != rest[j] {
            assert rest[i] == s[i + 1] && rest[j] == s[j + 1];
          }
        }
        assert s[0] !in rest by {
          forall j | 0 <= j < |rest| ensures rest[j] != s[0] {
            assert rest[j] == s[j + 1];
          }
        }
      } else {
        var i, j :| 0 <= i < j < |s| && s[i] == s[j];
        if i == 0 {
          assert s[j] == rest[j - 1];
          assert multiset(s)[s[0]] == 1 + multiset(rest)[s[0]];
        } else {
          assert rest[i - 1] == s[i] && rest[j - 1] == s[j];
          assert !Distinct(rest);
          var x :| multiset(rest)[x] > 1;
          assert multiset(s)[x] >= multiset(rest)[x];
        }
      }
    }
  }
}
