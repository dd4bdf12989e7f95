/** The gloss vocabulary (`LookupTable` in phoenix_datasets/utils.py): the distinct
    keys in ascending string order get the dense indices 0..d-1, and an optional
    trailing slot d stands for every unknown key. */
module Vocabulary {
  import opened Results
  import opened Lists
  import opened Ordering
  import opened Sorting

  predicate StrictlySorted(ks: seq<string>)
  {
    forall i, j :: 0 <= i < j < |ks| ==> StrLt(ks[i], ks[j])
  }

  lemma StrLeIsTotalPreorder()
    ensures TotalPreorder(StrLe)
  {
    forall a, b ensures StrLe(a, b) || StrLe(b, a) {
      StrLeTotal(a, b);
    }
    forall a, b, c | StrLe(a, b) && StrLe(b, c) ensures StrLe(a, c) {
      StrLeTrans(a, b, c);
    }
  }

  /** `sorted(set(keys))`. */
  function SortedKeys(keys: seq<string>): (ks: seq<string>)
    ensures StrictlySorted(ks)
    ensures Elems(ks) == Elems(keys)
    ensures |ks| == |Elems(keys)|
  {
    var ks := SortBy(Dedup(keys), StrLe);
    StrLeIsTotalPreorder();
    SortBySorted(Dedup(keys), StrLe);
    SortByDistinct(Dedup(keys), StrLe);
    SortByElems(Dedup(keys), StrLe);
    DistinctCard(ks);
    ks
  }

  /** A strictly ascending list is determined by its elements. */
  lemma {:induction false} SortedKeysUnique(a: seq<string>, b: seq<string>)
    requires StrictlySorted(a) && StrictlySorted(b)
    requires Elems(a) == Elems(b)
    ensures a == b
  {
    if |a| > 0 {
      assert a[0] in Elems(b);
      assert |b| > 0;
      assert b[0] in Elems(a);
      var j :| 0 <= j < |a| && a[j] == b[0];
      var k :| 0 <= k < |b| && b[k] == a[0];
      if j > 0 && k > 0 {
        StrLeAntisym(a[0], b[0]);
      }
      assert a[0] == b[0];
      assert Elems(a) == {a[0]} + Elems(a[1..]);
      assert Elems(b) == {b[0]} + Elems(b[1..]);
      assert a[0] !in Elems(a[1..]);
      assert b[0] !in Elems(b[1..]);
      assert Elems(a[1..]) == Elems(b[1..]);
      SortedKeysUnique(a[1..], b[1..]);
      assert a == [a[0]] + a[1..] && b == [b[0]] + b[1..];
    } else {
      assert Elems(b) == {};
      StrictlySortedDistinct(b);
      DistinctCard(b);
    }
  }

  /** `table` is the dict built by `__init__`; `allowUnk` is its `allow_unk` flag. */
  datatype LookupTable = LookupTable(table: map<string, nat>, allowUnk: bool)

  /** The dict `{key: i for i, key in enumerate(ks)}` for keys without repeats. */
  function IndexMap(ks: seq<string>): (m: map<string, nat>)
    requires Distinct(ks)
    ensures m.Keys == Elems(ks)
    ensures forall i :: 0 <= i < |ks| ==> m[ks[i]] == i
    ensures forall k :: k in m ==> m[k] < |ks| && ks[m[k]] == k
  {
    map i | 0 <= i < |ks| :: ks[i] := i
  }

  lemma StrictlySortedDistinct(ks: seq<string>)
    requires StrictlySorted(ks)
    ensures Distinct(ks)
  {
    forall i, j | 0 <= i < j < |ks| ensures ks[i] != ks[j] {
      assert StrLt(ks[i], ks[j]);
    }
  }

  /** Over ascending keys, the index map is onto 0..|ks|-1 and order-preserving. */
  lemma IndexMapOrdered(ks: seq<string>)
    requires StrictlySorted(ks) && Distinct(ks)
    ensures |IndexMap(ks)| == |ks|
    ensures forall i :: 0 <= i < |ks| ==> i in IndexMap(ks).Values
    ensures forall a, b :: a in IndexMap(ks) && b in IndexMap(ks) ==>
              (StrLt(a, b) <==> IndexMap(ks)[a] < IndexMap(ks)[b])
  {
    var m := IndexMap(ks);
    DistinctCard(ks);
    assert |m| == |m.Keys|;
    forall i | 0 <= i < |ks| ensures i in m.Values {
      assert m[ks[i]] == i;
    }
    forall a, b | a in m && b in m ensures StrLt(a, b) <==> m[a] < m[b] {
      var i, j := m[a], m[b];
      assert ks[i] == a && ks[j] == b;
      if j < i {
        assert StrLt(b, a);
        StrLtAsymmetric(a, b);
      } else if i == j {
        assert a == b;
      }
    }
  }

  lemma StrLtAsymmetric(a: string, b: string)
    ensures !(StrLt(a, b) && StrLt(b, a))
  {
    if StrLe(a, b) && StrLe(b, a) {
      StrLeAntisym(a, b);
    }
  }

  /** `LookupTable(keys, allow_unk)`. */
  function Create(keys: seq<string>, allowUnk: bool): (t: LookupTable)
    ensures t.allowUnk == allowUnk
    ensures t.table.Keys == Elems(keys)
    ensures |t.table| == |Elems(keys)|
    ensures forall k :: k in t.table ==> t.table[k] < |Elems(keys)|
    ensures forall i :: 0 <= i < |Elems(keys)| ==> i in t.table.Values
    ensures forall k :: k in t.table ==> SortedKeys(keys)[t.table[k]] == k
    ensures forall a, b :: a in t.table && b in t.table ==> (StrLt(a, b) <==> t.table[a] < t.table[b])
  {
    var ks := SortedKeys(keys);
    StrictlySortedDistinct(ks);
    IndexMapOrdered(ks);
    LookupTable(IndexMap(ks), allowUnk)
  }

  /** Every index of the table is below the number of its keys, as for every
      table `Create` builds. */
  predicate Wellformed(t: LookupTable)
  {
    forall k :: k in t.table ==> t.table[k] < |t.table|
  }

  /** `len(table)`: the known keys plus the unk slot when it is enabled. */
  function Len(t: LookupTable): nat
  {
    |t.table| + (if t.allowUnk then 1 else 0)
  }

  /** `table(key)`: the key's index, the unk slot, or `KeyError`. */
  function Call(t: LookupTable, key: string): (r: Result<nat>)
    ensures Wellformed(t) && r.Ok? ==> r.value < Len(t)
    ensures r.Err? <==> key !in t.table && !t.allowUnk
    ensures r.Err? ==> r.error == KeyError(key)
  {
    if key in t.table then Ok(t.table[key])
    else if t.allowUnk then Ok(Len(t) - 1)
    else Err(KeyError(key))
  }

  /** The dict that `str(table)` renders: the table, with `"unk"` bound to the last
      slot when unknown keys are allowed (overriding a literal key `"unk"`). */
  function Shown(t: LookupTable): (d: map<string, nat>)
    ensures d.Keys == t.table.Keys + (if t.allowUnk then {"unk"} else {})
    ensures t.allowUnk ==> d["unk"] == Len(t) - 1
    ensures forall k :: k in t.table && (k != "unk" || !t.allowUnk) ==> d[k] == t.table[k]
  {
    if t.allowUnk then t.table["unk" := Len(t) - 1] else t.table
  }

  /** The table depends only on the set of keys: repeats and input order do not matter. */
  lemma CreateDependsOnlyOnKeySet(keys1: seq<string>, keys2: seq<string>, allowUnk: bool)
    requires Elems(keys1) == Elems(keys2)
    ensures Create(keys1, allowUnk) == Create(keys2, allowUnk)
  {
    SortedKeysUnique(SortedKeys(keys1), SortedKeys(keys2));
  }

  /** `len` counts the distinct keys, plus one exactly when unknown keys are allowed. */
  lemma LenOfCreate(keys: seq<string>, allowUnk: bool)
    ensures Len(Create(keys, allowUnk)) == |Elems(keys)| + (if allowUnk then 1 else 0)
    ensures Wellformed(Create(keys, allowUnk))
  {
  }

  /** A known key is encoded to its position among the sorted distinct keys, the same
      with or without the unk slot; decoding that position gives the key back. */
  lemma EncodeKnown(keys: seq<string>, allowUnk: bool, k: string)
    requires k in keys
    ensures Call(Create(keys, allowUnk), k).Ok?
    ensures Call(Create(keys, allowUnk), k) == Call(Create(keys, !allowUnk), k)
    ensures Call(Create(keys, allowUnk), k).value < |Elems(keys)|
    ensures SortedKeys(keys)[Call(Create(keys, allowUnk), k).value] == k
  {
    assert k in Elems(keys);
  }

  /** Known keys get distinct indices, ascending in key order. */
  lemma EncodeOrdered(keys: seq<string>, allowUnk: bool, a: string, b: string)
    requires a in keys && b in keys
    ensures StrLt(a, b) <==> Call(Create(keys, allowUnk), a).value < Call(Create(keys, allowUnk), b).value
    ensures a != b ==> Call(Create(keys, allowUnk), a) != Call(Create(keys, allowUnk), b)
  {
    assert a in Elems(keys) && b in Elems(keys);
    if a != b {
      StrLeTotal(a, b);
    }
  }

  /** An unknown key gets the slot `len - 1 == d` when unk is allowed, an index no known
      key has; otherwise it raises `KeyError`. */
  lemma EncodeUnknown(keys: seq<string>, k: string)
    requires k !in keys
    ensures Call(Create(keys, true), k) == Ok(|Elems(keys)|)
    ensures Len(Create(keys, true)) - 1 == |Elems(keys)|
    ensures forall k' :: k' in keys ==> Call(Create(keys, true), k') != Ok(|Elems(keys)|)
    ensures Call(Create(keys, false), k) == Err(KeyError(k))
  {
    assert k !in Elems(keys);
    var t := Create(keys, true);
    var f := Create(keys, false);
    assert k !in t.table && k !in f.table;
    forall k' | k' in keys ensures Call(t, k') != Ok(|Elems(keys)|) {
      assert k' in Elems(keys);
      assert t.table[k'] < |Elems(keys)|;
    }
  }

  /** With unk allowed, the shown dict binds `"unk"` to the last slot; when `"unk"` is
      itself a known key its real index is hidden behind that binding. */
  lemma ShownOverridesUnk(keys: seq<string>)
    requires "unk" in keys
    ensures Shown(Create(keys, true))["unk"] == |Elems(keys)|
    ensures Create(keys, true).table["unk"] < |Elems(keys)|
    ensures |Shown(Create(keys, true))| == |Elems(keys)|
  {
    assert "unk" in Elems(keys);
    ShownWithUnkKey(Create(keys, true));
  }

  lemma ShownWithUnkKey(t: LookupTable)
    requires t.allowUnk && "unk" in t.table
    ensures Shown(t)["unk"] == |t.table|
    ensures |Shown(t)| == |t.table|
  {
    assert Shown(t).Keys == t.table.Keys;
    assert |Shown(t)| == |Shown(t).Keys| == |t.table.Keys| == |t.table|;
  }

  lemma ExampleKnown(keys: seq<string>)
    requires Elems(keys) == {"A", "B", "C"}
    ensures var t := Create(keys, true);
      t.table["A"] == 0 && t.table["B"] == 1 && t.table["C"] == 2
  {
    var abc := ["A", "B", "C"];
    assert StrLt("A", "B") && StrLt("B", "C") && StrLt("A", "C");
    assert StrictlySorted(abc);
    assert Elems(abc) == {"A", "B", "C"};
    SortedKeysUnique(SortedKeys(keys), abc);
    var t := Create(keys, true);
    assert "A" in t.table && "B" in t.table && "C" in t.table;
    assert abc[t.table["A"]] == "A" && abc[t.table["B"]] == "B" && abc[t.table["C"]] == "C";
  }

  lemma ExampleUnknown(keys: seq<string>)
    requires Elems(keys) == {"A", "B", "C"}
    ensures var t := Create(keys, true); Call(t, "D") == Ok(3) && Len(t) == 4
  {
    assert |Elems(keys)| == 3;
    assert "D" !in Elems(keys);
    assert "D" !in keys;
    EncodeUnknown(keys, "D");
  }

  /** Glosses whose distinct set is `{A, B, C}` (such as the sentences `A B` and
      `B C`) give `A:0, B:1, C:2` and the unk slot 3, four entries in all. */
  lemma ExampleVocabulary(keys: seq<string>)
    requires Elems(keys) == {"A", "B", "C"}
    ensures var t := Create(keys, true);
      && Call(t, "A") == Ok(0) && Call(t, "B") == Ok(1) && Call(t, "C") == Ok(2)
      && Call(t, "D") == Ok(3) && Len(t) == 4
  {
    ExampleKnown(keys);
    ExampleUnknown(keys);
    assert "A" in Elems(keys) && "B" in Elems(keys) && "C" in Elems(keys);
  }
}
