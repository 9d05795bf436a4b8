/** Frontier records and the ordering the search sorts them by. The frontier
    is kept sorted in non-increasing order of f = g + h, so its back holds an
    entry of least f. */
module Frontier {

  /** One frontier record {x, y, g, h}: a cell, the cost carried to it and
      its heuristic estimate of the distance left. */
  datatype Entry = Entry(x: int, y: int, g: int, h: int)

  /** The priority f = g + h of an entry. */
  function Cost(e: Entry): int
  {
    e.g + e.h
  }

  /** The comparator handed to the sort: v1 goes before v2 when its f is
      strictly larger. Equal f values are not ordered. */
  predicate Compare(v1: Entry, v2: Entry)
  {
    Cost(v1) > Cost(v2)
  }

  /** No element comes after one it should precede. */
  predicate Sorted(s: seq<Entry>)
  {
    forall i, j :: 0 <= i < j < |s| ==> !Compare(s[j], s[i])
  }

  /** No value occurs twice. */
  predicate Distinct<T(==)>(s: seq<T>)
  {
    forall i, j :: 0 <= i < j < |s| ==> s[i] != s[j]
  }

  /** Compare is a strict weak ordering, which is what the sort requires of
      its comparator: irreflexive, transitive, and with transitive
      incomparability (entries of equal f). */
  lemma CompareIsStrictWeakOrder(a: Entry, b: Entry, c: Entry)
    ensures !Compare(a, a)
    ensures Compare(a, b) && Compare(b, c) ==> Compare(a, c)
    ensures Compare(a, b) ==> !Compare(b, a)
    ensures !Compare(a, b) && !Compare(b, a) && !Compare(b, c) && !Compare(c, b)
            ==> !Compare(a, c) && !Compare(c, a)
  {
  }

  /** Puts e into the sorted sequence s in front of the first element whose f
      is not larger than e's. */
  function Insert(s: seq<Entry>, e: Entry): (r: seq<Entry>)
    requires Sorted(s)
    ensures multiset(r) == multiset(s) + multiset{e}
    ensures Sorted(r)
  {
    if s == [] || !Compare(s[0], e) then
      [e] + s
    else
      var rest := Insert(s[1..], e);
      assert s == [s[0]] + s[1..];
      forall d | d in rest ensures !Compare(d, s[0]) {
        assert d in multiset(rest);
      }
      SortedCons(s[0], rest);
      [s[0]] + rest
  }

  /** A sorted sequence stays sorted when an element no smaller in f than
      any of it is put in front. */
  lemma SortedCons(x: Entry, s: seq<Entry>)
    requires Sorted(s)
    requires forall d :: d in s ==> !Compare(d, x)
    ensures Sorted([x] + s)
  {
    var r := [x] + s;
    forall i, j | 0 <= i < j < |r| ensures !Compare(r[j], r[i]) {
      assert r[j] == s[j - 1];
      if i > 0 {
        assert r[i] == s[i - 1];
      }
    }
  }

  /** Inserting a new element into a sequence without repetitions gives one
      without repetitions. */
  lemma {:induction false} InsertKeepsDistinct(s: seq<Entry>, e: Entry)
    requires Sorted(s) && Distinct(s) && e !in s
    ensures Distinct(Insert(s, e))
  {
    if s == [] || !Compare(s[0], e) {
    } else {
      assert s == [s[0]] + s[1..];
      InsertKeepsDistinct(s[1..], e);
      var rest := Insert(s[1..], e);
      assert s[0] !in s[1..] by {
        forall k | 0 <= k < |s[1..]| ensures s[1..][k] != s[0] {
          assert s[1..][k] == s[k + 1];
        }
      }
      assert s[0] !in multiset(rest);
      var r := [s[0]] + rest;
      forall i, j | 0 <= i < j < |r| ensures r[i] != r[j] {
        assert r[j] == rest[j - 1];
        if i > 0 {
          assert r[i] == rest[i - 1];
        }
      }
    }
  }

  /** The model of sorting the frontier: the result is some permutation of
      the frontier in which f never increases from front to back. Which of
      several entries of equal f ends up last is left open. */
  method CellSort(frontier: seq<Entry>) returns (sorted: seq<Entry>)
    ensures multiset(sorted) == multiset(frontier) && |sorted| == |frontier|
    ensures Sorted(sorted)
    ensures Distinct(frontier) ==> Distinct(sorted)
  {
    sorted := [];
    for i := 0 to |frontier|
      invariant multiset(sorted) == multiset(frontier[..i])
      invariant Sorted(sorted)
      invariant Distinct(frontier[..i]) ==> Distinct(sorted)
    {
      assert frontier[..i + 1] == frontier[..i] + [frontier[i]];
      if Distinct(frontier[..i + 1]) {
        assert frontier[i] !in multiset(frontier[..i]);
        InsertKeepsDistinct(sorted, frontier[i]);
      }
      sorted := Insert(sorted, frontier[i]);
    }
    assert frontier[..|frontier|] == frontier;
  }

  /** The back of a sorted frontier has the least f of all its entries, so
      popping it selects an entry of least priority. */
  lemma BackIsCheapest(s: seq<Entry>)
    requires Sorted(s) && |s| > 0
    ensures forall e :: e in s ==> Cost(s[|s| - 1]) <= Cost(e)
  {
  }
}
