/** The gloss mapping of the language-model helper (phoenix_datasets/language_model.py):
    from the lemma records of the `3state.lex` lexicon to the map from a normalised
    pronunciation key to the set of written glosses. Parsing the XML is not modelled:
    the records arrive already parsed. */
module LanguageModel {
  import opened Results
  import opened Lists
  import opened Strings

  /** A lemma field as the XML parser hands it over: missing, a single text, or a list. */
  datatype Field = Absent | One(text: string) | Many(texts: seq<string>)

  /** A lemma record: its written forms (`orth`) and pronunciations (`phon`). */
  datatype Lemma = Lemma(orth: Field, phon: Field)

  /** The default set of an absent key. */
  const UnknownGloss := "[UNKNOWN]"

  /** How many leading records of the lexicon are skipped. */
  const SkippedLemmas: nat := 4

  type Mapping = map<string, set<string>>

  /** A field as a list: a single text becomes a one-element list. */
  function Values(f: Field): (vs: seq<string>)
    ensures f.One? ==> vs == [f.text]
    ensures f.Many? ==> vs == f.texts
  {
    match f
    case Absent => []
    case One(t) => [t]
    case Many(ts) => ts
  }

  predicate IsAsciiDigit(c: char)
  {
    '0' <= c <= '9'
  }

  /** The key of a pronunciation: its first whitespace token, less one trailing digit. */
  function PhonKey(phon: string): (r: Result<string>)
    ensures r.Ok? <==> !AllSpace(phon)
    ensures r.Err? ==> r.error == IndexError
    ensures r.Ok? ==> var w := Split(phon)[0];
      && |r.value| <= |w| && r.value == w[..|r.value|]
      && (|r.value| == |w| - 1 <==> IsAsciiDigit(w[|w| - 1]))
      && (|r.value| == |w| <==> !IsAsciiDigit(w[|w| - 1]))
  {
    var words := Split(phon);
    if |words| == 0 then Err(IndexError)
    else
      var w := words[0];
      assert IsWord(w);
      if IsAsciiDigit(w[|w| - 1]) then Ok(w[..|w| - 1]) else Ok(w)
  }

  /** A token and a token with one digit appended share their key, as long as the
      token itself does not end in a digit; only one digit is ever removed. */
  lemma PhonKeyOfToken(w: string, d: char, rest: string)
    requires IsWord(w) && IsAsciiDigit(d)
    requires rest == [] || IsSpace(rest[0])
    ensures PhonKey(w + [d] + rest) == Ok(w)
    ensures !IsAsciiDigit(w[|w| - 1]) ==> PhonKey(w + rest) == Ok(w)
  {
    assert IsWord(w + [d]);
    SplitAfterWord(w + [d], rest);
    assert (w + [d]) + rest == w + [d] + rest;
    assert (w + [d])[..|w|] == w;
    if !IsAsciiDigit(w[|w| - 1]) {
      SplitAfterWord(w, rest);
    }
  }

  /** The set stored under `key`, or the empty set a `defaultdict(set)` would create. */
  function Get(m: Mapping, key: string): set<string>
  {
    if key in m then m[key] else {}
  }

  /** Some pronunciation of the list has key `key`. */
  predicate HasKey(phons: seq<string>, key: string)
  {
    exists i :: 0 <= i < |phons| && PhonKey(phons[i]) == Ok(key)
  }

  predicate AllParse(phons: seq<string>)
  {
    forall i :: 0 <= i < |phons| ==> !AllSpace(phons[i])
  }

  /** `mapping[key].add(orth)`. */
  function Insert(m: Mapping, key: string, orth: string): (m': Mapping)
    ensures forall k :: k in m' <==> k in m || k == key
    ensures forall k :: Get(m', k) == Get(m, k) + (if k == key then {orth} else {})
  {
    m[key := Get(m, key) + {orth}]
  }

  lemma HasKeyCons(phons: seq<string>, k: string)
    requires |phons| > 0
    ensures HasKey(phons, k) <==> PhonKey(phons[0]) == Ok(k) || HasKey(phons[1..], k)
  {
    if HasKey(phons[1..], k) {
      var i :| 0 <= i < |phons[1..]| && PhonKey(phons[1..][i]) == Ok(k);
      assert PhonKey(phons[i + 1]) == Ok(k);
    }
    if HasKey(phons, k) {
      var i :| 0 <= i < |phons| && PhonKey(phons[i]) == Ok(k);
      if i > 0 {
        assert PhonKey(phons[1..][i - 1]) == Ok(k);
      }
    }
  }

  lemma AllParseCons(phons: seq<string>)
    requires |phons| > 0
    ensures AllParse(phons) <==> !AllSpace(phons[0]) && AllParse(phons[1..])
  {
    assert forall i :: 1 <= i < |phons| ==> phons[i] == phons[1..][i - 1];
  }

  /** The inner loop: `mapping[key(phon)].add(orth)` for every pronunciation. */
  function AddPhons(m: Mapping, orth: string, phons: seq<string>): (r: Result<Mapping>)
    ensures r.Ok? <==> AllParse(phons)
    ensures r.Err? ==> r.error == IndexError
    ensures r.Ok? ==> forall k :: k in r.value <==> k in m || HasKey(phons, k)
    ensures r.Ok? ==> forall k :: Get(r.value, k) == Get(m, k) + (if HasKey(phons, k) then {orth} else {})
    decreases |phons|
  {
    if |phons| == 0 then Ok(m)
    else
      AllParseCons(phons);
      var first := PhonKey(phons[0]);
      if first.Err? then Err(first.error)
      else
        var key := first.value;
        var m1 := Insert(m, key, orth);
        forall k ensures HasKey(phons, k) <==> k == key || HasKey(phons[1..], k) {
          HasKeyCons(phons, k);
        }
        AddPhons(m1, orth, phons[1..])
  }

  /** The outer loop: every written form with every pronunciation. */
  function AddOrths(m: Mapping, orths: seq<string>, phons: seq<string>): (r: Result<Mapping>)
    ensures r.Ok? <==> |orths| == 0 || AllParse(phons)
    ensures r.Err? ==> r.error == IndexError
    ensures r.Ok? ==> forall k :: k in r.value <==> k in m || (|orths| > 0 && HasKey(phons, k))
    ensures r.Ok? ==> forall k :: Get(r.value, k) == Get(m, k) + (if HasKey(phons, k) then Elems(orths) else {})
    decreases |orths|
  {
    if |orths| == 0 then Ok(m)
    else
      var m' :- AddPhons(m, orths[0], phons);
      assert Elems(orths) == {orths[0]} + Elems(orths[1..]) by {
        assert forall x :: x in orths <==> x == orths[0] || x in orths[1..];
      }
      AddOrths(m', orths[1..], phons)
  }

  /** Both fields are present: the record takes part. */
  predicate Usable(l: Lemma)
  {
    !l.orth.Absent? && !l.phon.Absent?
  }

  /** The lemma maps written form `o` under `key`. */
  predicate Contributes(l: Lemma, o: string, key: string)
  {
    Usable(l) && o in Values(l.orth) && HasKey(Values(l.phon), key)
  }

  /** The record raises: it takes part, has a written form and a blank pronunciation. */
  predicate Fails(l: Lemma)
  {
    Usable(l) && |Values(l.orth)| > 0 && !AllParse(Values(l.phon))
  }

  /** The loop over the records. */
  function AddLemmas(m: Mapping, lemmas: seq<Lemma>): (r: Result<Mapping>)
    ensures r.Ok? <==> forall j :: 0 <= j < |lemmas| ==> !Fails(lemmas[j])
    ensures r.Err? ==> r.error == IndexError
    decreases |lemmas|
  {
    if |lemmas| == 0 then Ok(m)
    else
      var l := lemmas[0];
      assert forall j :: 1 <= j < |lemmas| ==> lemmas[j] == lemmas[1..][j - 1];
      if !Usable(l) then AddLemmas(m, lemmas[1..])
      else
        var m' :- AddOrths(m, Values(l.orth), Values(l.phon));
        AddLemmas(m', lemmas[1..])
  }

  /** Entries are only ever added to: no key disappears and no set shrinks. */
  lemma {:induction false} AddLemmasGrows(m: Mapping, lemmas: seq<Lemma>)
    requires AddLemmas(m, lemmas).Ok?
    ensures forall k :: k in m ==> k in AddLemmas(m, lemmas).value && m[k] <= AddLemmas(m, lemmas).value[k]
    decreases |lemmas|
  {
    if |lemmas| > 0 {
      var l := lemmas[0];
      if !Usable(l) {
        AddLemmasGrows(m, lemmas[1..]);
      } else {
        var m' := AddOrths(m, Values(l.orth), Values(l.phon)).value;
        assert forall k :: k in m ==> Get(m, k) <= Get(m', k);
        AddLemmasGrows(m', lemmas[1..]);
      }
    }
  }

  /** A written form is stored under a key exactly when it was there before or some
      record contributes it. */
  lemma {:induction false} AddLemmasMembership(m: Mapping, lemmas: seq<Lemma>, key: string, o: string)
    requires AddLemmas(m, lemmas).Ok?
    ensures o in Get(AddLemmas(m, lemmas).value, key) <==> o in Get(m, key) || SomeContributes(lemmas, o, key)
    decreases |lemmas|
  {
    if |lemmas| > 0 {
      var l := lemmas[0];
      var m' := if Usable(l) then AddOrths(m, Values(l.orth), Values(l.phon)).value else m;
      assert AddLemmas(m, lemmas) == AddLemmas(m', lemmas[1..]);
      AddLemmasMembership(m', lemmas[1..], key, o);
      assert o in Get(m', key) <==> o in Get(m, key) || Contributes(l, o, key);
      SomeContributesCons(lemmas, o, key);
    }
  }

  lemma SomeContributesCons(lemmas: seq<Lemma>, o: string, key: string)
    requires |lemmas| > 0
    ensures SomeContributes(lemmas, o, key) <==> Contributes(lemmas[0], o, key) || SomeContributes(lemmas[1..], o, key)
  {
    if SomeContributes(lemmas[1..], o, key) {
      var j :| 0 <= j < |lemmas[1..]| && Contributes(lemmas[1..][j], o, key);
      assert Contributes(lemmas[j + 1], o, key);
    }
    if SomeContributes(lemmas, o, key) {
      var j :| 0 <= j < |lemmas| && Contributes(lemmas[j], o, key);
      if j > 0 {
        assert Contributes(lemmas[1..][j - 1], o, key);
      }
    }
  }

  /** One record's loops store no empty set. */
  lemma AddOrthsNonEmpty(m: Mapping, orths: seq<string>, phons: seq<string>)
    requires AddOrths(m, orths, phons).Ok?
    requires forall k :: k in m ==> m[k] != {}
    ensures forall k :: k in AddOrths(m, orths, phons).value ==> AddOrths(m, orths, phons).value[k] != {}
  {
    var m' := AddOrths(m, orths, phons).value;
    forall k | k in m' ensures m'[k] != {} {
      assert Get(m', k) == m'[k];
      if k in m {
        assert m[k] <= Get(m', k);
      } else {
        assert |orths| > 0 && HasKey(phons, k);
        assert orths[0] in Elems(orths);
      }
    }
  }

  /** Every stored set is non-empty, when every set it started from was. */
  lemma {:induction false} AddLemmasNonEmpty(m: Mapping, lemmas: seq<Lemma>)
    requires AddLemmas(m, lemmas).Ok?
    requires forall k :: k in m ==> m[k] != {}
    ensures forall k :: k in AddLemmas(m, lemmas).value ==> AddLemmas(m, lemmas).value[k] != {}
    decreases |lemmas|
  {
    if |lemmas| > 0 {
      var l := lemmas[0];
      if !Usable(l) {
        AddLemmasNonEmpty(m, lemmas[1..]);
      } else {
        var m' := AddOrths(m, Values(l.orth), Values(l.phon)).value;
        AddOrthsNonEmpty(m, Values(l.orth), Values(l.phon));
        AddLemmasNonEmpty(m', lemmas[1..]);
      }
    }
  }

  /** `d["lexicon"]["lemma"][4:]`: the records that take part. */
  function Used(lemmas: seq<Lemma>): (used: seq<Lemma>)
    ensures |used| == if |lemmas| >= SkippedLemmas then |lemmas| - SkippedLemmas else 0
    ensures forall j :: 0 <= j < |used| ==> used[j] == lemmas[j + SkippedLemmas]
  {
    Slice(lemmas, SkippedLemmas, |lemmas|)
  }

  /** `create_gloss_mapping()` over the parsed records: the first four are skipped. */
  function CreateGlossMapping(lemmas: seq<Lemma>): (r: Result<Mapping>)
    ensures r.Ok? <==> forall j :: SkippedLemmas <= j < |lemmas| ==> !Fails(lemmas[j])
  {
    var used := Used(lemmas);
    assert forall j :: SkippedLemmas <= j < |lemmas| ==> lemmas[j] == used[j - SkippedLemmas];
    AddLemmas(map[], used)
  }

  /** The skipped records have no influence on the mapping. */
  lemma SkippedRecordsIgnored(a: seq<Lemma>, b: seq<Lemma>)
    requires |a| == |b| && |a| >= SkippedLemmas
    requires a[SkippedLemmas..] == b[SkippedLemmas..]
    ensures CreateGlossMapping(a) == CreateGlossMapping(b)
  {
    assert Used(a) == a[SkippedLemmas..];
    assert Used(b) == b[SkippedLemmas..];
  }

  /** Some record of the list maps `o` under `key`. */
  predicate SomeContributes(lemmas: seq<Lemma>, o: string, key: string)
  {
    exists j :: 0 <= j < |lemmas| && Contributes(lemmas[j], o, key)
  }

  /** The records taking part are those from the fifth on. */
  lemma UsedContributes(lemmas: seq<Lemma>, o: string, key: string)
    ensures SomeContributes(Used(lemmas), o, key) <==>
            exists j :: SkippedLemmas <= j < |lemmas| && Contributes(lemmas[j], o, key)
  {
    var used := Used(lemmas);
    if SomeContributes(used, o, key) {
      var j :| 0 <= j < |used| && Contributes(used[j], o, key);
      assert Contributes(lemmas[j + SkippedLemmas], o, key);
    }
    if exists j :: SkippedLemmas <= j < |lemmas| && Contributes(lemmas[j], o, key) {
      var j :| SkippedLemmas <= j < |lemmas| && Contributes(lemmas[j], o, key);
      assert Contributes(used[j - SkippedLemmas], o, key);
    }
  }

  /** A key maps to exactly the written forms the records (from the fifth on) pair
      with it. */
  lemma GlossMappingMembership(lemmas: seq<Lemma>, key: string, o: string)
    requires CreateGlossMapping(lemmas).Ok?
    ensures o in Get(CreateGlossMapping(lemmas).value, key) <==>
            exists j :: SkippedLemmas <= j < |lemmas| && Contributes(lemmas[j], o, key)
  {
    AddLemmasMembership(map[], Used(lemmas), key, o);
    UsedContributes(lemmas, o, key);
  }

  /** No key of a created mapping holds an empty set. */
  lemma GlossMappingNonEmpty(lemmas: seq<Lemma>, key: string)
    requires CreateGlossMapping(lemmas).Ok?
    ensures key in CreateGlossMapping(lemmas).value ==> CreateGlossMapping(lemmas).value[key] != {}
  {
    AddLemmasNonEmpty(map[], Used(lemmas));
  }

  /** The `defaultdict(unk_set, mapping)` lookup: an absent key gives `{"[UNKNOWN]"}`. */
  function LookupGloss(m: Mapping, key: string): (glosses: set<string>)
    ensures key !in m ==> glosses == {UnknownGloss}
    ensures key in m ==> glosses == m[key]
  {
    if key in m then m[key] else {UnknownGloss}
  }

  /** Looking up any key of a created mapping yields at least one gloss. */
  lemma LookupNeverEmpty(lemmas: seq<Lemma>, key: string)
    requires CreateGlossMapping(lemmas).Ok?
    ensures LookupGloss(CreateGlossMapping(lemmas).value, key) != {}
  {
    GlossMappingNonEmpty(lemmas, key);
  }
}
