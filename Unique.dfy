// A list that keeps its elements unique and non-empty, sortable in descending order
// of the elements' canonical strings.

module Unique {

  /** `strings.Compare`: -1, 0 or +1 by lexicographic order of the characters. */
  function Compare(a: string, b: string): (r: int)
    ensures -1 <= r <= 1
    ensures r == 0 <==> a == b
  {
    if a == [] && b == [] then 0
    else if a == [] then -1
    else if b == [] then 1
    else if a[0] < b[0] then -1
    else if a[0] > b[0] then 1
    else Compare(a[1..], b[1..])
  }

  /** Comparing the other way round gives the opposite sign. */
  lemma {:induction false} CompareAntisymmetric(a: string, b: string)
    ensures Compare(a, b) == -Compare(b, a)
  {
    if a != [] && b != [] && a[0] == b[0] {
      CompareAntisymmetric(a[1..], b[1..]);
    }
  }

  /** Comparison is transitive: an order on strings. */
  lemma {:induction false} CompareTransitive(a: string, b: string, c: string)
    requires Compare(a, b) < 0 && Compare(b, c) < 0
    ensures Compare(a, c) < 0
  {
    if a != [] && a[0] == b[0] && b[0] == c[0] {
      CompareTransitive(a[1..], b[1..], c[1..]);
    }
  }

  /** The list without repeated elements: `Add`'s invariant, together with the absence
      of empty elements. */
  ghost predicate NoDuplicates<T>(s: seq<T>)
  {
    forall i, j :: 0 <= i < j < |s| ==> s[i] != s[j]
  }

  /** The list after `Add(x)`: unchanged for an empty or present element, otherwise
      extended by `x` at the end. */
  function Added<T(==)>(data: seq<T>, x: T, isEmpty: T -> bool): (r: seq<T>)
    ensures isEmpty(x) || x in data ==> r == data
    ensures !isEmpty(x) && x !in data ==> r == data + [x]
  {
    if isEmpty(x) || x in data then data else data + [x]
  }

  /** Adding keeps the list free of duplicates and of empty elements. */
  lemma AddedKeepsInvariant<T>(data: seq<T>, x: T, isEmpty: T -> bool)
    requires NoDuplicates(data) && forall i :: 0 <= i < |data| ==> !isEmpty(data[i])
    ensures var r := Added(data, x, isEmpty);
      NoDuplicates(r) && forall i :: 0 <= i < |r| ==> !isEmpty(r[i])
  {
    var r := Added(data, x, isEmpty);
    if r != data {
      forall i, j | 0 <= i < j < |r|
        ensures r[i] != r[j]
      {
        if j == |data| {
          assert r[i] == data[i] && r[j] == x;
        }
      }
    }
  }

  /** The element type of the tests: a string, empty when it is "". */
  predicate EmptyString(s: string)
  {
    s == ""
  }

  /** The test sequence: "bar", "foo", "foo" and "" leave two elements. */
  lemma AddedFixture()
    ensures Added(Added(Added(Added([], "bar", EmptyString), "foo", EmptyString), "foo", EmptyString),
                  "", EmptyString) == ["bar", "foo"]
  {
    var l2 := Added(Added([], "bar", EmptyString), "foo", EmptyString);
    assert l2 == ["bar", "foo"];
    assert "foo" in l2;
  }

  class UniqueList<T(==)> {
    var data: seq<T>
    /** The `Empty` and `Canonical` methods of the element type. */
    const isEmpty: T -> bool
    const canonical: T -> string

    /** No duplicates and no empty element. */
    ghost predicate Valid()
      reads this
    {
      NoDuplicates(data) && forall i :: 0 <= i < |data| ==> !isEmpty(data[i])
    }

    constructor (isEmpty: T -> bool, canonical: T -> string)
      ensures data == [] && Valid()
      ensures this.isEmpty == isEmpty && this.canonical == canonical
    {
      data := [];
      this.isEmpty := isEmpty;
      this.canonical := canonical;
    }

    /** `Add`: an empty element, or one already in the list, is dropped; any other is
        appended. */
    method Add(str: T)
      modifies this
      ensures data == Added(old(data), str, isEmpty)
      ensures old(Valid()) ==> Valid()
    {
      if isEmpty(str) {
        return;
      }
      for idx := 0 to |data|
        invariant str !in data[..idx]
      {
        if data[idx] == str {
          return;
        }
      }
      assert data[..|data|] == data;
      data := data + [str];
      if old(Valid()) {
        AddedKeepsInvariant(old(data), str, isEmpty);
      }
    }

    function Len(): (n: nat)
      reads this
      ensures n == |data|
    {
      |data|
    }

    /** `Swap`: exchanges the elements at `i` and `j` and nothing else. */
    method Swap(i: nat, j: nat)
      requires i < |data| && j < |data|
      modifies this
      ensures |data| == |old(data)| && data[i] == old(data)[j] && data[j] == old(data)[i]
      ensures forall k :: 0 <= k < |data| && k != i && k != j ==> data[k] == old(data)[k]
      ensures multiset(data) == multiset(old(data))
      ensures old(Valid()) ==> Valid()
    {
      var a, b := data[i], data[j];
      data := data[i := b][j := a];
      SwapKeepsInvariant(old(data), i, j);
    }

    /** `Less`: element `i` sorts before element `j` when its canonical string is the
        greater, so that sorting is in descending order. */
    function Less(i: nat, j: nat): (r: bool)
      requires i < |data| && j < |data|
      reads this
      ensures r <==> Compare(canonical(data[j]), canonical(data[i])) < 0
    {
      CompareAntisymmetric(canonical(data[i]), canonical(data[j]));
      Compare(canonical(data[i]), canonical(data[j])) > 0
    }

    /** `Less` is a strict order on the positions of the list, so sorting with it is
        well defined: irreflexive, asymmetric and transitive. */
    lemma LessStrictOrder(i: nat, j: nat, k: nat)
      requires i < |data| && j < |data| && k < |data|
      ensures !Less(i, i)
      ensures Less(i, j) ==> !Less(j, i)
      ensures Less(i, j) && Less(j, k) ==> Less(i, k)
    {
      var ci, cj, ck := canonical(data[i]), canonical(data[j]), canonical(data[k]);
      if Less(i, j) && Less(j, k) {
        CompareTransitive(ck, cj, ci);
      }
    }

    function First(): (r: T)
      requires |data| > 0
      reads this
      ensures r in data
      ensures Valid() ==> !isEmpty(r)
    {
      data[0]
    }
  }

  /** Exchanging two positions keeps the elements distinct and non-empty. */
  lemma SwapKeepsInvariant<T>(s: seq<T>, i: nat, j: nat)
    requires i < |s| && j < |s|
    ensures multiset(s[i := s[j]][j := s[i]]) == multiset(s)
    ensures NoDuplicates(s) ==> NoDuplicates(s[i := s[j]][j := s[i]])
  {
    var r := s[i := s[j]][j := s[i]];
    if NoDuplicates(s) {
      // Position k of r holds the element s had at position Src(k).
      forall a, b | 0 <= a < b < |r|
        ensures r[a] != r[b]
      {
        var sa := if a == j then i else if a == i then j else a;
        var sb := if b == j then i else if b == i then j else b;
        assert r[a] == s[sa] && r[b] == s[sb] && sa != sb;
      }
    }
  }

  /** In the test's sorted list the greatest canonical string comes first: "foo" sorts
      before "bar". */
  lemma SortFixture()
    ensures Compare("foo", "bar") > 0
  {
  }
}
