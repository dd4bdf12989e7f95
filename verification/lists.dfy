/** Sequence helpers shared by the whole model: Python slicing and element sets. */
module Lists {

  /** The set of elements of a sequence (Python's `set(xs)`). */
  function Elems<T>(xs: seq<T>): set<T>
  {
    set x | x in xs
  }

  /** Lists with the same elements counted with multiplicity have the same elements. */
  lemma MultisetElems<T>(a: seq<T>, b: seq<T>)
    requires multiset(a) == multiset(b)
    ensures Elems(a) == Elems(b)
  {
    forall x ensures x in Elems(a) <==> x in Elems(b) {
      assert x in a <==> x in multiset(a);
      assert x in b <==> x in multiset(b);
    }
  }

  /** No element occurs twice. */
  predicate Distinct<T(==)>(xs: seq<T>)
  {
    forall i, j :: 0 <= i < j < |xs| ==> xs[i] != xs[j]
  }

  /** Python's normalisation of a slice bound `i` against a list of length `len`:
      negative bounds count from the end, and both ends are clamped to `[0, len]`. */
  function SliceBound(i: int, len: nat): (b: nat)
    ensures b <= len
    ensures 0 <= i <= len ==> b == i
    ensures -(len as int) <= i < 0 ==> b == len + i
  {
    if i < 0 then (if i + len < 0 then 0 else i + len)
    else if i > len then len
    else i
  }

  /** Python's `xs[start:stop]` with step 1. */
  function Slice<T>(xs: seq<T>, start: int, stop: int): (r: seq<T>)
    ensures |r| <= |xs|
    ensures SliceBound(start, |xs|) <= SliceBound(stop, |xs|) ==>
              r == xs[SliceBound(start, |xs|)..SliceBound(stop, |xs|)]
    ensures SliceBound(stop, |xs|) <= SliceBound(start, |xs|) ==> r == []
  {
    var a := SliceBound(start, |xs|);
    var b := SliceBound(stop, |xs|);
    if a < b then xs[a..b] else []
  }

  /** Keeps the first occurrence of every element. It stands for Python's
      `set(xs)`: whatever order the set iterates in, the model only ever sorts
      the result, and `Vocabulary.SortedKeysUnique` shows the order cannot matter. */
  function Dedup<T(==)>(xs: seq<T>): (r: seq<T>)
    ensures Distinct(r)
    ensures Elems(r) == Elems(xs)
    ensures |r| <= |xs|
  {
    if |xs| == 0 then []
    else
      var rest := Dedup(xs[1..]);
      assert Elems(xs) == {xs[0]} + Elems(xs[1..]);
      if xs[0] in rest then rest else [xs[0]] + rest
  }

  /** A distinct sequence has as many elements as its element set. */
  lemma {:induction false} DistinctCard<T>(xs: seq<T>)
    requires Distinct(xs)
    ensures |Elems(xs)| == |xs|
  {
    if |xs| > 0 {
      assert Elems(xs) == {xs[0]} + Elems(xs[1..]);
      assert xs[0] !in Elems(xs[1..]);
      DistinctCard(xs[1..]);
    }
  }

  /** `[0, 1, ..., n-1]`, Python's `range(n)` / numpy's `arange(n)`. */
  function Range(n: nat): (r: seq<nat>)
    ensures |r| == n
    ensures forall i :: 0 <= i < n ==> r[i] == i
  {
    seq(n, i => i)
  }

  /** Concatenation of a sequence of sequences (Python's nested comprehension
      `[x for xs in xss for x in xs]`). */
  function Flatten<T>(xss: seq<seq<T>>): seq<T>
  {
    if |xss| == 0 then [] else xss[0] + Flatten(xss[1..])
  }

  /** An element of the flattening is an element of one of the parts, and back. */
  lemma {:induction false} FlattenElems<T>(xss: seq<seq<T>>, x: T)
    ensures x in Flatten(xss) <==> exists i :: 0 <= i < |xss| && x in xss[i]
  {
    if |xss| > 0 {
      FlattenElems(xss[1..], x);
      if x in Flatten(xss[1..]) {
        var i :| 0 <= i < |xss[1..]| && x in xss[1..][i];
        assert x in xss[i + 1];
      }
      if exists i :: 0 <= i < |xss| && x in xss[i] {
        var i :| 0 <= i < |xss| && x in xss[i];
        if i > 0 {
          assert x in xss[1..][i - 1];
        }
      }
    }
  }
}
