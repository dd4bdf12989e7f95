/** The dataset view and batch collation (phoenix_datasets/datasets.py): the
    constructor's guard and vocabulary choice, example assembly, `collate_fn` and
    the warn-once dict behind the deprecated `text` field. Frames are opaque values
    of type `F`; decoding a frame file is the parameter `decode`. */
module Datasets {
  import opened Results
  import opened Lists
  import opened Corpora
  import opened Vocabulary
  import opened FrameSampler

  /** The frame type the corpus' examples use. */
  const FrameType := "fullFrame-210x260px"

  /** A constructed `VideoTextDataset`: corpus root, drop policy, loaded rows and
      vocabulary. */
  datatype Dataset = Dataset(root: string, pDrop: real, randomDrop: bool,
                             records: seq<Record>, vocab: LookupTable)

  predicate ValidDropRate(pDrop: real)
  {
    0.0 <= pDrop <= 1.0
  }

  /** Python's truth value of a `LookupTable`: its `len` is not zero. */
  predicate Truthy(t: LookupTable)
  {
    Len(t) != 0
  }

  /** `VideoTextDataset.__init__`. `records` is what `load_data_frame(split)` returned
      and `created` what `create_vocab()` would build; `vocab or create_vocab()` keeps a
      given table only when it is truthy. */
  function NewDataset(root: string, pDrop: real, randomDrop: bool, records: seq<Record>,
                      given: Option<LookupTable>, created: LookupTable): (r: Result<Dataset>)
    ensures r.Ok? <==> ValidDropRate(pDrop)
    ensures r.Err? ==> r.error.AssertionError?
    ensures r.Ok? ==> r.value.records == records && r.value.pDrop == pDrop && r.value.randomDrop == randomDrop
    ensures r.Ok? && given.Some? && Len(given.value) > 0 ==> r.value.vocab == given.value
    ensures r.Ok? && (given.None? || Len(given.value) == 0) ==> r.value.vocab == created
  {
    if !(0.0 <= pDrop <= 1.0) then Err(AssertionError("p_drop value is out of range."))
    else
      var vocab := if given.Some? && Truthy(given.value) then given.value else created;
      Ok(Dataset(root, pDrop, randomDrop, records, vocab))
  }

  /** `len(dataset)`: exactly the indices from `-len` up to `len - 1` address a row. */
  function Size(ds: Dataset): (n: nat)
    ensures forall index :: RowAt(ds.records, index).Ok? <==> -(n as int) <= index < n
  {
    |ds.records|
  }

  /** `data_frame.iloc[index]`: negative positions count from the end. */
  function RowAt(records: seq<Record>, index: int): (r: Result<Record>)
    ensures r.Ok? <==> -|records| <= index < |records|
    ensures r.Err? ==> r.error == IndexError
    ensures 0 <= index < |records| ==> r == Ok(records[index])
    ensures -|records| <= index < 0 ==> r == Ok(records[|records| + index])
  {
    if 0 <= index < |records| then Ok(records[index])
    else if -|records| <= index < 0 then Ok(records[|records| + index])
    else Err(IndexError)
  }

  /** `list(map(vocab, items))`: the indices in order, or the first lookup's error. */
  function EncodeAll(t: LookupTable, items: seq<string>): (r: Result<seq<nat>>)
    ensures r.Ok? <==> forall i :: 0 <= i < |items| ==> Call(t, items[i]).Ok?
    ensures r.Ok? ==> |r.value| == |items| && forall i :: 0 <= i < |items| ==> r.value[i] == Call(t, items[i]).value
    ensures r.Err? ==> (exists i :: 0 <= i < |items| && Call(t, items[i]) == Err(r.error) &&
                          forall j :: 0 <= j < i ==> Call(t, items[j]).Ok?)
  {
    if |items| == 0 then Ok([])
    else
      var head :- Call(t, items[0]);
      var rest := EncodeAll(t, items[1..]);
      assert forall i :: 1 <= i < |items| ==> items[i] == items[1..][i - 1];
      if rest.Err? then
        var k :| 0 <= k < |items[1..]| && Call(t, items[1..][k]) == Err(rest.error) &&
                 forall j :: 0 <= j < k ==> Call(t, items[1..][j]).Ok?;
        assert Call(t, items[k + 1]) == Err(rest.error);
        rest
      else Ok([head] + rest.value)
  }

  /** One materialised example: the loaded row with `video` and `label` added. */
  datatype Example<F> = Example(record: Record, video: seq<F>, labels: seq<nat>)

  /** The frame directory of a row: `root / "features" / type / folder`. */
  function FrameDir(root: string, rec: Record): (dir: string)
    ensures |dir| > |root| + 10 + |rec.folder|
    ensures dir[..|root| + 10] == root + "/features/"
    ensures dir[|dir| - |rec.folder| - 1..] == "/" + rec.folder
  {
    var dir := root + "/features/" + FrameType + "/" + rec.folder;
    assert dir == (root + "/features/") + (FrameType + "/" + rec.folder);
    assert dir == (root + "/features/" + FrameType) + ("/" + rec.folder);
    dir
  }

  /** `[frames[i] for i in indices]`, each frame then decoded. */
  function SelectFrames<F>(frames: seq<string>, kept: seq<nat>, decode: string -> F): (video: seq<F>)
    requires InRange(kept, |frames|)
    ensures |video| == |kept|
    ensures forall i :: 0 <= i < |kept| ==> video[i] == decode(frames[kept[i]])
  {
    seq(|kept|, i requires 0 <= i < |kept| => decode(frames[kept[i]]))
  }

  /** `__getitem__(index)`. `listing` is the row's frame directory as the file system
      lists it and `perm` the shuffle numpy would draw for it. `np.stack` of an empty
      frame list raises `ValueError`, before any label is encoded. */
  function GetItem<F>(ds: Dataset, index: int, listing: seq<string>, decode: string -> F,
                      perm: seq<nat>): (r: Result<Example<F>>)
    requires ValidDropRate(ds.pDrop)
    requires ds.randomDrop ==> IsPermutation(perm, PngCount(listing))
    ensures RowAt(ds.records, index).Err? ==> r == Err(IndexError)
    ensures r.Err? ==> || r.error == IndexError || r.error == ZeroDivisionError || r.error == ValueError
                       || r.error == TypeError || r.error.KeyError?
    ensures RowAt(ds.records, index).Ok? ==>
              var sampled := SampleIndices(PngCount(listing), ds.pDrop, ds.randomDrop, perm);
              && (sampled.Err? ==> r == Err(ZeroDivisionError))
              && (sampled.Ok? && |sampled.value| == 0 ==> r == Err(ValueError))
    ensures r.Ok? ==> RowAt(ds.records, index) == Ok(r.value.record) && |r.value.video| > 0
    ensures r.Ok? ==> var frames := GetFrames(FrameDir(ds.root, r.value.record), listing);
              var sampled := SampleIndices(|frames|, ds.pDrop, ds.randomDrop, perm);
              && sampled.Ok?
              && r.value.video == SelectFrames(frames, sampled.value, decode)
    ensures r.Ok? ==> var tokens := Items(r.value.record.annotation);
              && tokens.Ok?
              && EncodeAll(ds.vocab, tokens.value) == Ok(r.value.labels)
  {
    var rec :- RowAt(ds.records, index);
    var frames := GetFrames(FrameDir(ds.root, rec), listing);
    var kept :- SampleIndices(|frames|, ds.pDrop, ds.randomDrop, perm);
    if |kept| == 0 then Err(ValueError)
    else
      var items :- Items(rec.annotation);
      var labels :- EncodeAll(ds.vocab, items);
      Ok(Example(rec, SelectFrames(frames, kept, decode), labels))
  }

  /** With `p_drop = 0` the video is every frame of the directory, decoded in path order. */
  lemma NoDropVideo<F>(ds: Dataset, index: int, listing: seq<string>, decode: string -> F, perm: seq<nat>)
    requires ds.pDrop == 0.0
    requires ds.randomDrop ==> IsPermutation(perm, PngCount(listing))
    requires GetItem(ds, index, listing, decode, perm).Ok?
    ensures var ex := GetItem(ds, index, listing, decode, perm).value;
      var frames := GetFrames(FrameDir(ds.root, ex.record), listing);
      |ex.video| == |frames| && forall i :: 0 <= i < |frames| ==> ex.video[i] == decode(frames[i])
  {
    var ex := GetItem(ds, index, listing, decode, perm).value;
    var frames := GetFrames(FrameDir(ds.root, ex.record), listing);
    NoDropKeepsAll(|frames|, ds.randomDrop, perm);
  }

  /** A row whose directory holds no frame never yields an example: the sample is
      empty and `np.stack` refuses it, unless deterministic mode already divided by zero. */
  lemma EmptyDirectoryFails<F>(ds: Dataset, index: int, listing: seq<string>, decode: string -> F, perm: seq<nat>)
    requires ValidDropRate(ds.pDrop)
    requires ds.randomDrop ==> IsPermutation(perm, PngCount(listing))
    requires -|ds.records| <= index < |ds.records| && PngCount(listing) == 0
    ensures ds.randomDrop || ds.pDrop < 1.0 ==> GetItem(ds, index, listing, decode, perm) == Err(ValueError)
    ensures !ds.randomDrop && ds.pDrop == 1.0 ==> GetItem(ds, index, listing, decode, perm) == Err(ZeroDivisionError)
  {
    if !ds.randomDrop && ds.pDrop < 1.0 {
      assert Ceil(0 as real * (1.0 - ds.pDrop)) == 0;
    }
  }

  /** In random mode a row fails with `ValueError` exactly when the kept count
      `int(n * p_kept)` is zero, even for a directory with frames. */
  lemma RandomEmptySampleFails<F>(ds: Dataset, index: int, listing: seq<string>, decode: string -> F, perm: seq<nat>)
    requires ValidDropRate(ds.pDrop) && ds.randomDrop
    requires IsPermutation(perm, PngCount(listing))
    requires -|ds.records| <= index < |ds.records|
    ensures KeptCount(PngCount(listing), ds.pDrop) == 0 <==> GetItem(ds, index, listing, decode, perm) == Err(ValueError)
  {
  }

  /** Labels align one to one with the annotation's tokens: with the unk slot every
      token encodes, so a row in range yields an example whenever its sample keeps
      a frame. */
  lemma LabelsAlignWithTokens<F>(ds: Dataset, index: int, listing: seq<string>, decode: string -> F, perm: seq<nat>)
    requires ValidDropRate(ds.pDrop) && ds.randomDrop && ds.vocab.allowUnk
    requires IsPermutation(perm, PngCount(listing)) && KeptCount(PngCount(listing), ds.pDrop) > 0
    requires 0 <= index < |ds.records| && ds.records[index].annotation.Glosses?
    ensures GetItem(ds, index, listing, decode, perm).Ok?
    ensures var ex := GetItem(ds, index, listing, decode, perm).value;
      |ex.labels| == |ds.records[index].annotation.tokens|
  {
    var rec := ds.records[index];
    assert EncodeAll(ds.vocab, rec.annotation.tokens).Ok?;
  }

  /** A value of one batch field. */
  datatype Value<F> = Video(frames: seq<F>) | Labels(indices: seq<nat>) | Text(text: string) | Ann(annotation: Annotation)

  /** The keys `collate_fn` fills. */
  const FieldNames: set<string> := {"video", "label", "text", "signer", "annotation", "id"}

  /** What `collate_fn` appends under `field` for one example; `text` repeats `label`. */
  function FieldValue<F>(ex: Example<F>, field: string): Value<F>
  {
    match field
    case "video" => Video(ex.video)
    case "label" => Labels(ex.labels)
    case "text" => Labels(ex.labels)
    case "signer" => Text(ex.record.signer)
    case "annotation" => Ann(ex.record.annotation)
    case _ => Text(ex.record.id)
  }

  /** A `defaultdict_with_warning(list)`: its entries and its `warning_enabled` flag. */
  datatype WarnDict<F> = WarnDict(entries: map<string, seq<Value<F>>>, warningEnabled: bool)

  /** The outcome of one subscript: the value (or error), the dict afterwards, the
      class-wide `warned` set afterwards and whether the warning was printed. */
  datatype Access<F> = Access(value: Result<seq<Value<F>>>, dict: WarnDict<F>, warned: set<string>, printed: bool)

  /** `defaultdict_with_warning.__getitem__`: warns about `"text"` once per process
      while enabled; a missing key gets a fresh empty list, as in any `defaultdict`. */
  function WarnGet<F>(d: WarnDict<F>, warned: set<string>, key: string): (a: Access<F>)
    ensures a.printed <==> key == "text" && key !in warned && d.warningEnabled
    ensures a.warned == warned + (if a.printed then {key} else {})
    ensures a.value.Ok? && key in a.dict.entries && a.value.value == a.dict.entries[key]
    ensures key in d.entries ==> a.dict == d
    ensures key !in d.entries ==> a.value.value == [] && a.dict == WarnDict(d.entries[key := []], d.warningEnabled)
  {
    var printed := key == "text" && key !in warned && d.warningEnabled;
    var warned' := if printed then warned + {key} else warned;
    if key in d.entries then Access(Ok(d.entries[key]), d, warned', printed)
    else Access(Ok([]), WarnDict(d.entries[key := []], d.warningEnabled), warned', printed)
  }

  /** `collated[key].append(v)`. */
  function Append<F>(d: WarnDict<F>, warned: set<string>, key: string, v: Value<F>): (WarnDict<F>, set<string>)
  {
    var a := WarnGet(d, warned, key);
    (WarnDict(a.dict.entries[key := a.value.value + [v]], a.dict.warningEnabled), a.warned)
  }

  /** One iteration of the loop in `collate_fn`: six appends, in the source's order. */
  function AppendSample<F>(d: WarnDict<F>, warned: set<string>, ex: Example<F>): (WarnDict<F>, set<string>)
  {
    var (d1, w1) := Append(d, warned, "video", Video(ex.video));
    var (d2, w2) := Append(d1, w1, "label", Labels(ex.labels));
    var (d3, w3) := Append(d2, w2, "text", Labels(ex.labels));
    var (d4, w4) := Append(d3, w3, "signer", Text(ex.record.signer));
    var (d5, w5) := Append(d4, w4, "annotation", Ann(ex.record.annotation));
    Append(d5, w5, "id", Text(ex.record.id))
  }

  /** The loop of `collate_fn` over the examples. */
  function CollateLoop<F>(d: WarnDict<F>, warned: set<string>, batch: seq<Example<F>>): (WarnDict<F>, set<string>)
    decreases |batch|
  {
    if |batch| == 0 then (d, warned)
    else
      var (d', warned') := AppendSample(d, warned, batch[0]);
      CollateLoop(d', warned', batch[1..])
  }

  /** The list under `key` before an append: what is there, or the default `[]`. */
  function Prior<F>(entries: map<string, seq<Value<F>>>, key: string): seq<Value<F>>
  {
    if key in entries then entries[key] else []
  }

  /** The column of `field` over a list of examples. */
  function Column<F>(batch: seq<Example<F>>, field: string): (col: seq<Value<F>>)
    ensures |col| == |batch|
  {
    seq(|batch|, i requires 0 <= i < |batch| => FieldValue(batch[i], field))
  }

  /** The dict `collate_fn` returns, and one subscript of it. As written, `dict(collated)`
      copies the entries into a plain dict, dropping the warning subclass. */
  datatype Batch<F> = PlainDict(entries: map<string, seq<Value<F>>>) | WarningDict(d: WarnDict<F>)

  function Entries<F>(b: Batch<F>): map<string, seq<Value<F>>>
  {
    match b
    case PlainDict(entries) => entries
    case WarningDict(d) => d.entries
  }

  /** `batch[key]` on the returned object, with the class-wide `warned` set. */
  function Subscript<F>(b: Batch<F>, warned: set<string>, key: string): (a: Access<F>)
    ensures a.printed ==> b.WarningDict? && key == "text" && key !in warned
    ensures key in Entries(b) ==> a.value == Ok(Entries(b)[key])
    ensures b.PlainDict? && key !in Entries(b) ==> a.value == Err(KeyError(key))
  {
    match b
    case PlainDict(entries) =>
      var value := if key in entries then Ok(entries[key]) else Err(KeyError(key));
      Access(value, WarnDict(entries, false), warned, false)
    case WarningDict(d) => WarnGet(d, warned, key)
  }

  /** `collate_fn(batch)` as written: the entries built by the loop (no subscript made
      inside the loop can warn, since `warning_enabled` is still the class default
      `False`), handed back as a plain dict. */
  function CollateFn<F>(batch: seq<Example<F>>, warned: set<string>): (r: (Batch<F>, set<string>))
    ensures r.0.PlainDict? && r.1 == warned
    ensures |batch| == 0 ==> Entries(r.0) == map[]
    ensures |batch| > 0 ==> Entries(r.0).Keys == FieldNames
    ensures forall f :: f in Entries(r.0) ==> Entries(r.0)[f] == Column(batch, f)
  {
    var (d, warned') := CollateLoop(WarnDict(map[], false), warned, batch);
    CollateLoopQuiet(map[], warned, batch);
    CollateLoopKeys(map[], warned, batch);
    CollateLoopColumns(map[], warned, batch);
    (PlainDict(d.entries), warned')
  }

  /** `collate_fn` as its `warning_enabled = True` line intends: the returned object
      keeps the warning dict, enabled. */
  function CollateIntended<F>(batch: seq<Example<F>>, warned: set<string>): (r: (Batch<F>, set<string>))
    ensures r.0.WarningDict? && r.0.d.warningEnabled && r.1 == warned
    ensures Entries(r.0) == Entries(CollateFn(batch, warned).0)
  {
    var (d, warned') := CollateLoop(WarnDict(map[], false), warned, batch);
    CollateLoopQuiet(map[], warned, batch);
    CollateLoopKeys(map[], warned, batch);
    CollateLoopColumns(map[], warned, batch);
    (WarningDict(WarnDict(d.entries, true)), warned')
  }

  /** As written, reading `"text"` from a collated batch never prints the deprecation
      warning, whatever has been warned before: the returned plain dict has lost the
      subclass's `__getitem__`. */
  lemma CollatedTextNeverWarns<F>(batch: seq<Example<F>>, warned: set<string>, seen: set<string>)
    requires |batch| > 0
    ensures var b := CollateFn(batch, warned).0;
      var a := Subscript(b, seen, "text");
      a.value == Ok(Column(batch, "text")) && !a.printed
  {
  }

  /** The intended batch warns on its first `"text"` read and never again, and both
      reads see the same list. */
  lemma CollateIntendedWarnsOnce<F>(batch: seq<Example<F>>, warned: set<string>)
    requires |batch| > 0 && "text" !in warned
    ensures var b := CollateIntended(batch, warned).0;
      var first := Subscript(b, warned, "text");
      var second := Subscript(WarningDict(first.dict), first.warned, "text");
      && first.printed && !second.printed
      && first.value == second.value == Ok(Column(batch, "text"))
  {
  }

  /** The deprecated `text` column carries the same labels as `label`. */
  lemma TextMirrorsLabel<F>(batch: seq<Example<F>>, warned: set<string>)
    requires |batch| > 0
    ensures var e := Entries(CollateFn(batch, warned).0);
      "text" in e && "label" in e && e["text"] == e["label"]
  {
  }

  /** Appending to a disabled dict never warns and extends exactly one entry. */
  lemma AppendSpec<F>(entries: map<string, seq<Value<F>>>, warned: set<string>, key: string, v: Value<F>)
    ensures Append(WarnDict(entries, false), warned, key, v) == (WarnDict(entries[key := Prior(entries, key) + [v]], false), warned)
  {
    var a := WarnGet(WarnDict(entries, false), warned, key);
    assert a.warned == warned && a.value.value == Prior(entries, key);
    assert a.dict.entries[key := a.value.value + [v]] == entries[key := Prior(entries, key) + [v]];
  }

  /** The six appends of one iteration on a disabled dict, as map updates. */
  function AppendedEntries<F>(entries: map<string, seq<Value<F>>>, ex: Example<F>): map<string, seq<Value<F>>>
  {
    var e1 := entries["video" := Prior(entries, "video") + [Video(ex.video)]];
    var e2 := e1["label" := Prior(e1, "label") + [Labels(ex.labels)]];
    var e3 := e2["text" := Prior(e2, "text") + [Labels(ex.labels)]];
    var e4 := e3["signer" := Prior(e3, "signer") + [Text(ex.record.signer)]];
    var e5 := e4["annotation" := Prior(e4, "annotation") + [Ann(ex.record.annotation)]];
    e5["id" := Prior(e5, "id") + [Text(ex.record.id)]]
  }

  lemma AppendSampleUpdates<F>(entries: map<string, seq<Value<F>>>, warned: set<string>, ex: Example<F>)
    ensures AppendSample(WarnDict(entries, false), warned, ex) == (WarnDict(AppendedEntries(entries, ex), false), warned)
  {
    var e1 := entries["video" := Prior(entries, "video") + [Video(ex.video)]];
    var e2 := e1["label" := Prior(e1, "label") + [Labels(ex.labels)]];
    var e3 := e2["text" := Prior(e2, "text") + [Labels(ex.labels)]];
    var e4 := e3["signer" := Prior(e3, "signer") + [Text(ex.record.signer)]];
    var e5 := e4["annotation" := Prior(e4, "annotation") + [Ann(ex.record.annotation)]];
    AppendSpec(entries, warned, "video", Video(ex.video));
    AppendSpec(e1, warned, "label", Labels(ex.labels));
    AppendSpec(e2, warned, "text", Labels(ex.labels));
    AppendSpec(e3, warned, "signer", Text(ex.record.signer));
    AppendSpec(e4, warned, "annotation", Ann(ex.record.annotation));
    AppendSpec(e5, warned, "id", Text(ex.record.id));
  }

  /** Appending one example binds exactly the six fields, besides what was there. */
  lemma AppendedEntriesKeys<F>(entries: map<string, seq<Value<F>>>, ex: Example<F>)
    ensures AppendedEntries(entries, ex).Keys == entries.Keys + FieldNames
    ensures entries.Keys <= FieldNames ==> AppendedEntries(entries, ex).Keys == FieldNames
  {
  }

  /** Each field's list grows by that field's value; nothing else changes. */
  lemma AppendedEntriesSpec<F>(entries: map<string, seq<Value<F>>>, ex: Example<F>)
    ensures AppendedEntries(entries, ex).Keys == entries.Keys + FieldNames
    ensures forall f :: f in entries && f !in FieldNames ==> AppendedEntries(entries, ex)[f] == entries[f]
    ensures forall f :: f in FieldNames ==> AppendedEntries(entries, ex)[f] == Prior(entries, f) + [FieldValue(ex, f)]
  {
    AppendedEntriesKeys(entries, ex);
    var e := AppendedEntries(entries, ex);
    assert e["video"] == Prior(entries, "video") + [FieldValue(ex, "video")];
    assert e["label"] == Prior(entries, "label") + [FieldValue(ex, "label")];
    assert e["text"] == Prior(entries, "text") + [FieldValue(ex, "text")];
    assert e["signer"] == Prior(entries, "signer") + [FieldValue(ex, "signer")];
    assert e["annotation"] == Prior(entries, "annotation") + [FieldValue(ex, "annotation")];
    assert e["id"] == Prior(entries, "id") + [FieldValue(ex, "id")];
    forall f | f in FieldNames ensures e[f] == Prior(entries, f) + [FieldValue(ex, f)] {
    }
  }

  /** One loop iteration appends each field's value to that field's list. */
  lemma AppendSampleSpec<F>(entries: map<string, seq<Value<F>>>, warned: set<string>, ex: Example<F>)
    ensures var (d', w') := AppendSample(WarnDict(entries, false), warned, ex);
      && w' == warned && !d'.warningEnabled
      && d'.entries.Keys == entries.Keys + FieldNames
      && (forall f :: f in entries && f !in FieldNames ==> d'.entries[f] == entries[f])
      && (forall f :: f in FieldNames ==> d'.entries[f] == Prior(entries, f) + [FieldValue(ex, f)])
  {
    AppendSampleUpdates(entries, warned, ex);
    AppendedEntriesSpec(entries, ex);
  }

  /** The column of a non-empty batch starts with its first example's value. */
  lemma ColumnCons<F>(batch: seq<Example<F>>, f: string)
    requires |batch| > 0
    ensures Column(batch, f) == [FieldValue(batch[0], f)] + Column(batch[1..], f)
  {
  }

  /** One turn of the loop on a disabled dict. */
  lemma CollateLoopStep<F>(entries: map<string, seq<Value<F>>>, warned: set<string>, batch: seq<Example<F>>)
    requires |batch| > 0
    ensures CollateLoop(WarnDict(entries, false), warned, batch) ==
            CollateLoop(WarnDict(AppendedEntries(entries, batch[0]), false), warned, batch[1..])
  {
    AppendSampleUpdates(entries, warned, batch[0]);
  }

  /** Appending one example's values, then the rest's columns, gives the whole columns. */
  lemma ColumnsCompose<F>(entries: map<string, seq<Value<F>>>, e1: map<string, seq<Value<F>>>,
                          e: map<string, seq<Value<F>>>, batch: seq<Example<F>>)
    requires |batch| > 0 && entries.Keys <= FieldNames && e.Keys <= FieldNames
    requires e1 == AppendedEntries(entries, batch[0])
    requires forall f :: f in e ==> e[f] == Prior(e1, f) + Column(batch[1..], f)
    ensures forall f :: f in e ==> e[f] == Prior(entries, f) + Column(batch, f)
  {
    AppendedEntriesSpec(entries, batch[0]);
    forall f | f in e
      ensures e[f] == Prior(entries, f) + Column(batch, f)
    {
      ColumnCons(batch, f);
    }
  }

  /** The loop never warns: the dict stays disabled throughout. */
  lemma {:induction false} CollateLoopQuiet<F>(entries: map<string, seq<Value<F>>>, warned: set<string>, batch: seq<Example<F>>)
    ensures CollateLoop(WarnDict(entries, false), warned, batch).1 == warned
    ensures !CollateLoop(WarnDict(entries, false), warned, batch).0.warningEnabled
    decreases |batch|
  {
    if |batch| > 0 {
      CollateLoopStep(entries, warned, batch);
      CollateLoopQuiet(AppendedEntries(entries, batch[0]), warned, batch[1..]);
    }
  }

  /** After at least one example the keys are exactly the six fields. */
  lemma {:induction false} CollateLoopKeys<F>(entries: map<string, seq<Value<F>>>, warned: set<string>, batch: seq<Example<F>>)
    requires entries.Keys <= FieldNames
    ensures |batch| == 0 ==> CollateLoop(WarnDict(entries, false), warned, batch).0.entries == entries
    ensures |batch| > 0 ==> CollateLoop(WarnDict(entries, false), warned, batch).0.entries.Keys == FieldNames
    decreases |batch|
  {
    if |batch| > 0 {
      CollateLoopStep(entries, warned, batch);
      AppendedEntriesKeys(entries, batch[0]);
      CollateLoopKeys(AppendedEntries(entries, batch[0]), warned, batch[1..]);
    }
  }

  /** The loop fills every field's list with that field's column, in batch order. */
  lemma {:induction false} CollateLoopColumns<F>(entries: map<string, seq<Value<F>>>, warned: set<string>, batch: seq<Example<F>>)
    requires entries.Keys <= FieldNames
    ensures var e := CollateLoop(WarnDict(entries, false), warned, batch).0.entries;
      forall f :: f in e ==> e[f] == Prior(entries, f) + Column(batch, f)
    decreases |batch|
  {
    CollateLoopKeys(entries, warned, batch);
    if |batch| > 0 {
      var e1 := AppendedEntries(entries, batch[0]);
      CollateLoopStep(entries, warned, batch);
      AppendedEntriesSpec(entries, batch[0]);
      CollateLoopColumns(e1, warned, batch[1..]);
      CollateLoopKeys(e1, warned, batch[1..]);
      ColumnsCompose(entries, e1, CollateLoop(WarnDict(e1, false), warned, batch[1..]).0.entries, batch);
    }
  }
}
