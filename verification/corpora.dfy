/** Corpus loading (phoenix_datasets/corpora.py and its older twin
    phoenix_datasets/corpus.py): the per-value string transforms pandas applies,
    the grouping of the frame alignment by sample id, the two loader variants,
    vocabulary creation from the train split and frame listing. */
module Corpora {
  import opened Results
  import opened Lists
  import opened Strings
  import opened Ordering
  import opened Sorting
  import opened Vocabulary

  /** One row of `<split>.corpus.csv` (columns `id|folder|signer|annotation`). */
  datatype ManifestRow = ManifestRow(id: string, folder: string, signer: string, annotation: string)

  /** The `annotation` cell of a loaded record: the whitespace tokens of the manual
      annotation; or, after the alignment merge, the space-joined gloss string of
      the alignment; or NaN when the alignment has no entry for the id. */
  datatype Annotation = Glosses(tokens: seq<string>) | AlignedText(text: string) | Missing

  /** A row of the loaded data frame. */
  datatype Record = Record(id: string, folder: string, signer: string, annotation: Annotation)

  /** A line of `train.alignment`: a frame path and its class label. */
  datatype AlignmentRow = AlignmentRow(framePath: string, classLabel: string)

  /** A line of `trainingClasses.txt`: a sign state and its class label. */
  datatype ClassRow = ClassRow(signstate: string, classLabel: string)

  /** One aligned frame after the per-value transforms. */
  datatype AlignedFrame = AlignedFrame(id: string, gloss: string, signstate: string)

  /** One group of the alignment: an id with its frames' glosses and sign states,
      each joined with single spaces. */
  datatype AlignedSentence = AlignedSentence(id: string, glosses: string, signstates: string)

  /** The number of ids of the known corpus release, checked after grouping. */
  const ExpectedAlignmentIds: nat := 5671

  const StateDigits: set<char> := {'0', '1', '2'}

  /** `signstate.rstrip("012")`: the gloss of a sign state. */
  function GlossOfState(signstate: string): (g: string)
    ensures |g| <= |signstate| && g == signstate[..|g|]
    ensures |g| > 0 ==> g[|g| - 1] !in StateDigits
    ensures forall i :: |g| <= i < |signstate| ==> signstate[i] in StateDigits
  {
    RStrip(signstate, StateDigits)
  }

  /** Normalising a gloss again changes nothing. */
  lemma GlossOfStateIdempotent(signstate: string)
    ensures GlossOfState(GlossOfState(signstate)) == GlossOfState(signstate)
  {
    RStripIdempotent(signstate, StateDigits);
  }

  /** `"/".join(s.split("/")[3:-2])`: the sample id inside a frame path. */
  function AlignmentId(path: string): (id: string)
    ensures |SplitOn(path, "/")| <= 5 ==> id == ""
    ensures |SplitOn(path, "/")| == 6 ==> id == SplitOn(path, "/")[3]
  {
    var segs := SplitOn(path, "/");
    assert |segs| == 6 ==> Slice(segs, 3, -2) == [segs[3]];
    Join("/", Slice(segs, 3, -2))
  }

  /** The id keeps exactly the path's `/`-segments after the first three and before
      the last two; when there are none the id is empty. */
  lemma AlignmentIdSegments(path: string)
    ensures var segs := SplitOn(path, "/");
      && (|segs| > 5 ==> SplitOn(AlignmentId(path), "/") == segs[3..|segs| - 2])
      && (|segs| <= 5 ==> AlignmentId(path) == "")
  {
    var segs := SplitOn(path, "/");
    if |segs| > 5 {
      var mid := segs[3..|segs| - 2];
      assert Slice(segs, 3, -2) == mid;
      forall k | 0 <= k < |mid| ensures '/' !in mid[k] {
        assert mid[k] == segs[k + 3];
        ContainsChar(mid[k], '/');
      }
      SplitOnJoin('/', mid);
    }
  }

  /** The sign states `pd.merge(ali, cls, how="left", on="classlabel")` pairs with
      one alignment row, in `trainingClasses.txt` order. */
  function StatesFor(classes: seq<ClassRow>, wanted: string): (states: seq<string>)
    ensures forall s :: s in states <==> exists k :: 0 <= k < |classes| && classes[k] == ClassRow(s, wanted)
  {
    if |classes| == 0 then []
    else
      var rest := StatesFor(classes[1..], wanted);
      assert forall k :: 1 <= k < |classes| ==> classes[k] == classes[1..][k - 1];
      if classes[0].classLabel == wanted then [classes[0].signstate] + rest else rest
  }

  /** The frames the merge gives one alignment row: one per matching class, in
      class-file order, all carrying the id of the row's frame path. */
  function RowFrames(row: AlignmentRow, classes: seq<ClassRow>): (fs: seq<AlignedFrame>)
    ensures forall f :: f in fs <==>
              exists s :: s in StatesFor(classes, row.classLabel) && f == AlignedFrame(AlignmentId(row.framePath), GlossOfState(s), s)
  {
    var states := StatesFor(classes, row.classLabel);
    var fs := seq(|states|, j requires 0 <= j < |states| =>
                AlignedFrame(AlignmentId(row.framePath), GlossOfState(states[j]), states[j]));
    assert forall s :: s in states ==> exists j :: 0 <= j < |states| && states[j] == s && fs[j] in fs;
    fs
  }

  /** Some alignment row has a label no class row carries. */
  predicate SomeRowUnclassed(ali: seq<AlignmentRow>, classes: seq<ClassRow>)
  {
    exists k :: 0 <= k < |ali| && StatesFor(classes, ali[k].classLabel) == []
  }

  /** `f` is one of the frames the merge gives some alignment row. */
  predicate FromSomeRow(f: AlignedFrame, ali: seq<AlignmentRow>, classes: seq<ClassRow>)
  {
    exists k :: 0 <= k < |ali| && f in RowFrames(ali[k], classes)
  }

  /** The merged and transformed frames. A label without a class leaves a NaN sign
      state, and `NaN.rstrip` raises `AttributeError`. */
  function AlignedFrames(ali: seq<AlignmentRow>, classes: seq<ClassRow>): (r: Result<seq<AlignedFrame>>)
    ensures r.Err? <==> SomeRowUnclassed(ali, classes)
    ensures r.Err? ==> r.error == AttributeError
    ensures r.Ok? ==> forall f :: f in r.value ==> f.gloss == GlossOfState(f.signstate)
    ensures r.Ok? ==> forall f :: f in r.value <==> FromSomeRow(f, ali, classes)
  {
    if |ali| == 0 then Ok([])
    else
      var states := StatesFor(classes, ali[0].classLabel);
      var rest := AlignedFrames(ali[1..], classes);
      assert forall k :: 1 <= k < |ali| ==> ali[k] == ali[1..][k - 1];
      if states == [] then Err(AttributeError)
      else if rest.Err? then rest
      else
        var head := RowFrames(ali[0], classes);
        assert forall f :: f in rest.value <==> exists k :: 1 <= k < |ali| && f in RowFrames(ali[k], classes) by {
          forall f | f in rest.value ensures exists k :: 1 <= k < |ali| && f in RowFrames(ali[k], classes) {
            var k :| 0 <= k < |ali[1..]| && f in RowFrames(ali[1..][k], classes);
            assert f in RowFrames(ali[k + 1], classes);
          }
        }
        Ok(head + rest.value)
  }

  /** One row of the merge put in front of the merge of the rows after it. */
  function ConsRow(row: AlignmentRow, classes: seq<ClassRow>, rest: Result<seq<AlignedFrame>>): Result<seq<AlignedFrame>>
  {
    if StatesFor(classes, row.classLabel) == [] then Err(AttributeError)
    else if rest.Err? then rest
    else Ok(RowFrames(row, classes) + rest.value)
  }

  /** One row of the merge: its frames ahead of the rest's, or the first failure. */
  lemma AlignedFramesStep(ali: seq<AlignmentRow>, classes: seq<ClassRow>)
    requires |ali| > 0
    ensures AlignedFrames(ali, classes) == ConsRow(ali[0], classes, AlignedFrames(ali[1..], classes))
  {
  }

  /** A row in front of results that concatenate stays in front of the first of them. */
  lemma ConsRowAppend(row: AlignmentRow, classes: seq<ClassRow>, x: Result<seq<AlignedFrame>>,
                      y: Result<seq<AlignedFrame>>, xy: Result<seq<AlignedFrame>>)
    requires xy.Ok? <==> x.Ok? && y.Ok?
    requires xy.Ok? ==> xy.value == x.value + y.value
    ensures ConsRow(row, classes, xy).Ok? <==> ConsRow(row, classes, x).Ok? && y.Ok?
    ensures ConsRow(row, classes, xy).Ok? ==> ConsRow(row, classes, xy).value == ConsRow(row, classes, x).value + y.value
  {
    if ConsRow(row, classes, xy).Ok? {
      assert RowFrames(row, classes) + (x.value + y.value) == (RowFrames(row, classes) + x.value) + y.value;
    }
  }

  /** The merge of one more row in front of a concatenation that merges part by part. */
  lemma AlignedFramesAppendCons(a: seq<AlignmentRow>, b: seq<AlignmentRow>, classes: seq<ClassRow>)
    requires |a| > 0
    requires AlignedFrames(a[1..] + b, classes).Ok? <==> AlignedFrames(a[1..], classes).Ok? && AlignedFrames(b, classes).Ok?
    requires AlignedFrames(a[1..] + b, classes).Ok? ==>
               AlignedFrames(a[1..] + b, classes).value == AlignedFrames(a[1..], classes).value + AlignedFrames(b, classes).value
    ensures AlignedFrames(a + b, classes).Ok? <==> AlignedFrames(a, classes).Ok? && AlignedFrames(b, classes).Ok?
    ensures AlignedFrames(a + b, classes).Ok? ==>
              AlignedFrames(a + b, classes).value == AlignedFrames(a, classes).value + AlignedFrames(b, classes).value
  {
    var ab := a + b;
    assert ab[0] == a[0];
    assert ab[1..] == a[1..] + b;
    AlignedFramesStep(a, classes);
    AlignedFramesStep(ab, classes);
    ConsRowAppend(a[0], classes, AlignedFrames(a[1..], classes), AlignedFrames(b, classes), AlignedFrames(a[1..] + b, classes));
  }

  /** Merging a concatenation of alignment rows yields the frames of each part in turn. */
  lemma {:induction false} AlignedFramesAppend(a: seq<AlignmentRow>, b: seq<AlignmentRow>, classes: seq<ClassRow>)
    ensures AlignedFrames(a + b, classes).Ok? <==> AlignedFrames(a, classes).Ok? && AlignedFrames(b, classes).Ok?
    ensures AlignedFrames(a + b, classes).Ok? ==>
              AlignedFrames(a + b, classes).value == AlignedFrames(a, classes).value + AlignedFrames(b, classes).value
  {
    if |a| == 0 {
      assert a + b == b;
    } else {
      AlignedFramesAppend(a[1..], b, classes);
      AlignedFramesAppendCons(a, b, classes);
    }
  }

  /** The frames with the given id, in order. */
  function FramesWithId(frames: seq<AlignedFrame>, id: string): (r: seq<AlignedFrame>)
    ensures forall f :: f in r <==> f in frames && f.id == id
    ensures |r| <= |frames|
  {
    if |frames| == 0 then []
    else
      assert forall f :: f in frames ==> f == frames[0] || f in frames[1..];
      if frames[0].id == id then [frames[0]] + FramesWithId(frames[1..], id)
      else FramesWithId(frames[1..], id)
  }

  function FrameIds(frames: seq<AlignedFrame>): (ids: seq<string>)
    ensures |ids| == |frames|
    ensures forall k :: 0 <= k < |frames| ==> ids[k] == frames[k].id
  {
    seq(|frames|, k requires 0 <= k < |frames| => frames[k].id)
  }

  /** The id column of the aggregated rows. */
  function SentenceIds(groups: seq<AlignedSentence>): (ids: seq<string>)
    ensures |ids| == |groups|
    ensures forall k :: 0 <= k < |groups| ==> ids[k] == groups[k].id
  {
    seq(|groups|, k requires 0 <= k < |groups| => groups[k].id)
  }

  /** `groupby("id")` with both columns aggregated by `" ".join` and merged back on
      the id: one group per distinct id, in ascending id order. */
  function GroupById(frames: seq<AlignedFrame>): (groups: seq<AlignedSentence>)
    ensures |groups| == |Elems(FrameIds(frames))|
    ensures StrictlySorted(SentenceIds(groups))
    ensures forall g :: g in groups <==> g.id in Elems(FrameIds(frames)) && g == Group(frames, g.id)
  {
    var ids := SortedKeys(FrameIds(frames));
    var groups := GroupsOf(frames, ids);
    assert SentenceIds(groups) == ids;
    GroupsOfMembers(frames, ids);
    groups
  }

  /** The group of each id, in the order of `ids`. */
  function GroupsOf(frames: seq<AlignedFrame>, ids: seq<string>): (groups: seq<AlignedSentence>)
    ensures |groups| == |ids|
    ensures forall k :: 0 <= k < |ids| ==> groups[k] == Group(frames, ids[k])
  {
    seq(|ids|, k requires 0 <= k < |ids| => Group(frames, ids[k]))
  }

  lemma GroupsOfMembers(frames: seq<AlignedFrame>, ids: seq<string>)
    ensures forall g :: g in GroupsOf(frames, ids) <==> g.id in Elems(ids) && g == Group(frames, g.id)
  {
    var groups := GroupsOf(frames, ids);
    forall g | g in groups ensures g.id in Elems(ids) && g == Group(frames, g.id) {
      var k :| 0 <= k < |groups| && groups[k] == g;
      assert ids[k] in Elems(ids);
    }
    forall i | i in Elems(ids) ensures Group(frames, i) in groups {
      var k :| 0 <= k < |ids| && ids[k] == i;
      assert groups[k] == Group(frames, i);
    }
  }

  function GlossColumn(fs: seq<AlignedFrame>): (col: seq<string>)
    ensures |col| == |fs| && forall j :: 0 <= j < |fs| ==> col[j] == fs[j].gloss
  {
    seq(|fs|, j requires 0 <= j < |fs| => fs[j].gloss)
  }

  function StateColumn(fs: seq<AlignedFrame>): (col: seq<string>)
    ensures |col| == |fs| && forall j :: 0 <= j < |fs| ==> col[j] == fs[j].signstate
  {
    seq(|fs|, j requires 0 <= j < |fs| => fs[j].signstate)
  }

  /** The aggregated row of one id: its frames' glosses and sign states, in frame
      order, each joined with single spaces. */
  function Group(frames: seq<AlignedFrame>, id: string): (g: AlignedSentence)
    ensures g.id == id
    ensures FramesWithId(frames, id) == [] ==> g.glosses == "" && g.signstates == ""
  {
    var members := FramesWithId(frames, id);
    AlignedSentence(id, Join(" ", GlossColumn(members)), Join(" ", StateColumn(members)))
  }

  /** Splitting a group's strings on spaces gives back its frames' glosses and sign
      states in frame order, when the id has frames and their values hold no space. */
  lemma GroupSplits(frames: seq<AlignedFrame>, id: string)
    requires var members := FramesWithId(frames, id);
      && |members| > 0
      && forall j :: 0 <= j < |members| ==> ' ' !in members[j].gloss && ' ' !in members[j].signstate
    ensures var members := FramesWithId(frames, id);
      && SplitOn(Group(frames, id).glosses, " ") == GlossColumn(members)
      && SplitOn(Group(frames, id).signstates, " ") == StateColumn(members)
  {
    var members := FramesWithId(frames, id);
    SplitOnJoin(' ', GlossColumn(members));
    SplitOnJoin(' ', StateColumn(members));
  }

  /** `load_alignment`: fails unless every label has a class and exactly 5671 ids remain. */
  function LoadAlignment(ali: seq<AlignmentRow>, classes: seq<ClassRow>): (r: Result<seq<AlignedSentence>>)
    ensures r.Ok? ==> |r.value| == ExpectedAlignmentIds
    ensures r.Ok? ==> StrictlySorted(SentenceIds(r.value))
    ensures AlignedFrames(ali, classes).Err? ==> r == Err(AttributeError)
    ensures AlignedFrames(ali, classes).Ok? ==>
              (r.Ok? <==> |Elems(FrameIds(AlignedFrames(ali, classes).value))| == ExpectedAlignmentIds)
    ensures AlignedFrames(ali, classes).Ok? && r.Err? ==> r.error.AssertionError?
    ensures r.Ok? ==> r.value == GroupById(AlignedFrames(ali, classes).value)
  {
    var frames :- AlignedFrames(ali, classes);
    var groups := GroupById(frames);
    if |groups| != ExpectedAlignmentIds then
      Err(AssertionError("Alignment file is not correct, expect to have 5671 entries"))
    else Ok(groups)
  }

  /** The `annotation` a left merge with the alignment gives the sample `id`. */
  function AlignedAnnotation(groups: seq<AlignedSentence>, id: string): (a: Annotation)
    ensures a.Missing? <==> forall k :: 0 <= k < |groups| ==> groups[k].id != id
    ensures a.AlignedText? ==> exists k :: 0 <= k < |groups| && groups[k] == AlignedSentence(id, a.text, groups[k].signstates)
  {
    if |groups| == 0 then Missing
    else if groups[0].id == id then AlignedText(groups[0].glosses)
    else
      var a := AlignedAnnotation(groups[1..], id);
      assert forall k :: 1 <= k < |groups| ==> groups[k] == groups[1..][k - 1];
      a
  }

  /** `split + "/" + folder.rsplit("/", 1)[0]`. */
  function FolderOf(split: string, folder: string): (f: string)
    ensures |f| > |split| && f[..|split| + 1] == split + "/"
    ensures '/' !in folder ==> f[|split| + 1..] == folder
    ensures '/' in folder ==> (
              var kept := f[|split| + 1..];
              && |kept| < |folder| && folder[..|kept|] == kept
              && folder[|kept|] == '/' && '/' !in folder[|kept| + 1..])
  {
    var prefix := BeforeLast(folder, '/');
    var f := split + "/" + prefix;
    assert f[..|split| + 1] == split + "/";
    assert f[|split| + 1..] == prefix;
    f
  }

  /** A manifest row as `load_data_frame` rewrites it, given its annotation. */
  function ToRecord(split: string, row: ManifestRow, annotation: Annotation): Record
  {
    Record(row.id, FolderOf(split, row.folder), row.signer, annotation)
  }

  /** Only the train split with `aligned_annotation` takes the alignment. */
  predicate UsesAlignment(split: string, aligned: bool)
  {
    split == "train" && aligned
  }

  /** `load_data_frame` of phoenix_datasets/corpus.py: rows stay in manifest order. */
  function LegacyLoadDataFrame(manifest: seq<ManifestRow>, split: string, aligned: bool,
                               ali: seq<AlignmentRow>, classes: seq<ClassRow>): (r: Result<seq<Record>>)
    ensures !UsesAlignment(split, aligned) ==> r.Ok?
    ensures UsesAlignment(split, aligned) ==> (r.Ok? <==> LoadAlignment(ali, classes).Ok?)
    ensures r.Ok? ==> |r.value| == |manifest|
    ensures r.Ok? ==> forall i :: 0 <= i < |manifest| ==>
              && r.value[i].id == manifest[i].id
              && r.value[i].signer == manifest[i].signer
              && r.value[i].folder == FolderOf(split, manifest[i].folder)
    ensures r.Ok? && !UsesAlignment(split, aligned) ==> forall i :: 0 <= i < |manifest| ==>
              r.value[i].annotation == Glosses(Split(manifest[i].annotation))
    ensures r.Ok? && UsesAlignment(split, aligned) ==> forall i :: 0 <= i < |manifest| ==>
              r.value[i].annotation == AlignedAnnotation(LoadAlignment(ali, classes).value, manifest[i].id)
  {
    if UsesAlignment(split, aligned) then
      var groups :- LoadAlignment(ali, classes);
      Ok(seq(|manifest|, i requires 0 <= i < |manifest| =>
        ToRecord(split, manifest[i], AlignedAnnotation(groups, manifest[i].id))))
    else
      Ok(seq(|manifest|, i requires 0 <= i < |manifest| =>
        ToRecord(split, manifest[i], Glosses(Split(manifest[i].annotation)))))
  }

  predicate IdLe(a: Record, b: Record)
  {
    StrLe(a.id, b.id)
  }

  lemma IdLeIsTotalPreorder()
    ensures TotalPreorder(IdLe)
  {
    forall a: Record, b: Record ensures IdLe(a, b) || IdLe(b, a) {
      StrLeTotal(a.id, b.id);
    }
    forall a: Record, b: Record, c: Record | IdLe(a, b) && IdLe(b, c) ensures IdLe(a, c) {
      StrLeTrans(a.id, b.id, c.id);
    }
  }

  /** `load_data_frame` of phoenix_datasets/corpora.py: the same rows, then
      `sort_values("id")`. pandas does not promise an order among equal ids; the
      model keeps them in manifest order. */
  function LoadDataFrame(manifest: seq<ManifestRow>, split: string, aligned: bool,
                         ali: seq<AlignmentRow>, classes: seq<ClassRow>): (r: Result<seq<Record>>)
    ensures r.Ok? <==> LegacyLoadDataFrame(manifest, split, aligned, ali, classes).Ok?
    ensures r.Ok? ==> multiset(r.value) == multiset(LegacyLoadDataFrame(manifest, split, aligned, ali, classes).value)
    ensures r.Ok? ==> forall i, j :: 0 <= i < j < |r.value| ==> StrLe(r.value[i].id, r.value[j].id)
  {
    var rows :- LegacyLoadDataFrame(manifest, split, aligned, ali, classes);
    IdLeIsTotalPreorder();
    SortBySorted(rows, IdLe);
    Ok(SortBy(rows, IdLe))
  }

  /** Rows that share an id keep their manifest order through the sort; `p` picks
      any set of rows with one id. */
  lemma LoadDataFrameKeepsTies(manifest: seq<ManifestRow>, split: string, aligned: bool,
                               ali: seq<AlignmentRow>, classes: seq<ClassRow>, p: Record -> bool)
    requires LoadDataFrame(manifest, split, aligned, ali, classes).Ok?
    requires forall a, b :: p(a) && p(b) ==> a.id == b.id
    ensures Filter(LoadDataFrame(manifest, split, aligned, ali, classes).value, p) ==
            Filter(LegacyLoadDataFrame(manifest, split, aligned, ali, classes).value, p)
  {
    forall a, b | p(a) && p(b) ensures IdLe(a, b) {
      StrLeTotal(a.id, b.id);
    }
    SortByStable(LegacyLoadDataFrame(manifest, split, aligned, ali, classes).value, IdLe, p);
  }

  /** What iterating over an `annotation` cell yields: its tokens, the characters of
      an aligned gloss string, or `TypeError` for NaN. */
  function Items(a: Annotation): (r: Result<seq<string>>)
    ensures a.Glosses? ==> r == Ok(a.tokens)
    ensures a.AlignedText? ==> (r.Ok? && |r.value| == |a.text| &&
              forall i :: 0 <= i < |a.text| ==> r.value[i] == [a.text[i]])
    ensures a.Missing? ==> r == Err(TypeError)
  {
    match a
    case Glosses(tokens) => Ok(tokens)
    case AlignedText(text) => Ok(seq(|text|, i requires 0 <= i < |text| => [text[i]]))
    case Missing => Err(TypeError)
  }

  /** Every whitespace token of the train manifest's annotations, in order. */
  function ManifestGlosses(manifest: seq<ManifestRow>): seq<string>
  {
    Flatten(seq(|manifest|, i requires 0 <= i < |manifest| => Split(manifest[i].annotation)))
  }

  /** The glosses of loaded records whose annotations are all token lists. */
  function RecordGlosses(records: seq<Record>): seq<string>
    requires forall i :: 0 <= i < |records| ==> records[i].annotation.Glosses?
  {
    Flatten(seq(|records|, i requires 0 <= i < |records| => records[i].annotation.tokens))
  }

  /** Without the alignment, the loaded rows hold exactly the manifest's tokens. */
  lemma LegacyGlosses(manifest: seq<ManifestRow>, split: string)
    ensures var rows := LegacyLoadDataFrame(manifest, split, false, [], []).value;
      (forall i :: 0 <= i < |rows| ==> rows[i].annotation.Glosses?) &&
      RecordGlosses(rows) == ManifestGlosses(manifest)
  {
    var rows := LegacyLoadDataFrame(manifest, split, false, [], []).value;
    assert seq(|rows|, i requires 0 <= i < |rows| => rows[i].annotation.tokens)
        == seq(|manifest|, i requires 0 <= i < |manifest| => Split(manifest[i].annotation));
  }

  /** Reordering records does not change which glosses they hold. */
  lemma PermutedGlosses(a: seq<Record>, b: seq<Record>)
    requires multiset(a) == multiset(b)
    requires forall i :: 0 <= i < |a| ==> a[i].annotation.Glosses?
    ensures forall i :: 0 <= i < |b| ==> b[i].annotation.Glosses?
    ensures Elems(RecordGlosses(a)) == Elems(RecordGlosses(b))
  {
    forall i | 0 <= i < |b| ensures b[i].annotation.Glosses? {
      assert b[i] in multiset(a);
    }
    forall g ensures g in RecordGlosses(a) ==> g in RecordGlosses(b) {
      PermutedGlossesOneWay(a, b, g);
    }
    forall g ensures g in RecordGlosses(b) ==> g in RecordGlosses(a) {
      PermutedGlossesOneWay(b, a, g);
    }
  }

  lemma PermutedGlossesOneWay(a: seq<Record>, b: seq<Record>, g: string)
    requires multiset(a) == multiset(b)
    requires forall i :: 0 <= i < |a| ==> a[i].annotation.Glosses?
    requires forall i :: 0 <= i < |b| ==> b[i].annotation.Glosses?
    ensures g in RecordGlosses(a) ==> g in RecordGlosses(b)
  {
    var xss := seq(|a|, i requires 0 <= i < |a| => a[i].annotation.tokens);
    var yss := seq(|b|, i requires 0 <= i < |b| => b[i].annotation.tokens);
    FlattenElems(xss, g);
    FlattenElems(yss, g);
    if g in RecordGlosses(a) {
      var i :| 0 <= i < |xss| && g in xss[i];
      assert a[i] in multiset(b);
      var j :| 0 <= j < |b| && b[j] == a[i];
      assert g in yss[j];
    }
  }

  /** Sorting the loaded rows does not change which glosses they hold. */
  lemma SortedRecordGlosses(manifest: seq<ManifestRow>)
    ensures LoadDataFrame(manifest, "train", false, [], []).Ok?
    ensures var rows := LoadDataFrame(manifest, "train", false, [], []).value;
      (forall i :: 0 <= i < |rows| ==> rows[i].annotation.Glosses?) &&
      Elems(RecordGlosses(rows)) == Elems(ManifestGlosses(manifest))
  {
    var legacy := LegacyLoadDataFrame(manifest, "train", false, [], []).value;
    var rows := LoadDataFrame(manifest, "train", false, [], []).value;
    LegacyGlosses(manifest, "train");
    PermutedGlosses(legacy, rows);
  }

  /** `Corpus.create_vocab` of phoenix_datasets/corpora.py: every gloss of the train
      split, with the unk slot. Encoding never raises. */
  function CreateVocab(trainManifest: seq<ManifestRow>): (t: LookupTable)
    ensures t.allowUnk
    ensures Len(t) == |Elems(ManifestGlosses(trainManifest))| + 1
    ensures forall g :: g in ManifestGlosses(trainManifest) ==> g in t.table
    ensures forall k :: Call(t, k).Ok?
  {
    SortedRecordGlosses(trainManifest);
    var rows := LoadDataFrame(trainManifest, "train", false, [], []).value;
    Create(RecordGlosses(rows), true)
  }

  /** `Corpus.create_vocab` of phoenix_datasets/corpus.py as written: `data_frame or
      self.load_data_frame("train")` asks a DataFrame for its truth value, which
      pandas refuses with `ValueError`; without one, the train split's glosses make a
      table without the unk slot. */
  function LegacyCreateVocab(dataFrame: Option<seq<Record>>, trainManifest: seq<ManifestRow>): (r: Result<LookupTable>)
    ensures dataFrame.Some? ==> r == Err(ValueError)
    ensures dataFrame.None? ==> (r.Ok? && !r.value.allowUnk &&
              Len(r.value) == |Elems(ManifestGlosses(trainManifest))| &&
              forall g :: g in ManifestGlosses(trainManifest) ==> Call(r.value, g).Ok?)
    ensures dataFrame.None? ==> forall k :: k !in ManifestGlosses(trainManifest) ==> Call(r.value, k) == Err(KeyError(k))
  {
    if dataFrame.Some? then Err(ValueError)
    else
      var rows := LegacyLoadDataFrame(trainManifest, "train", false, [], []).value;
      LegacyGlosses(trainManifest, "train");
      Ok(Create(RecordGlosses(rows), false))
  }

  /** All glosses of the given records, or the error iterating one of them raises. */
  function AllItems(records: seq<Record>): (r: Result<seq<string>>)
    ensures r.Ok? <==> forall i :: 0 <= i < |records| ==> !records[i].annotation.Missing?
  {
    if |records| == 0 then Ok([])
    else
      var head :- Items(records[0].annotation);
      var rest := AllItems(records[1..]);
      assert forall i :: 1 <= i < |records| ==> records[i] == records[1..][i - 1];
      if rest.Err? then rest else Ok(head + rest.value)
  }

  /** The legacy `create_vocab` as its signature intends: a given data frame is used
      instead of loading the train split. */
  function LegacyCreateVocabIntended(dataFrame: Option<seq<Record>>, trainManifest: seq<ManifestRow>): (r: Result<LookupTable>)
    ensures dataFrame.Some? ==> (r.Ok? <==> forall i :: 0 <= i < |dataFrame.value| ==> !dataFrame.value[i].annotation.Missing?)
    ensures dataFrame.Some? && r.Ok? ==> r.value == Create(AllItems(dataFrame.value).value, false)
    ensures dataFrame.None? ==> r == LegacyCreateVocab(dataFrame, trainManifest)
  {
    if dataFrame.Some? then
      var glosses :- AllItems(dataFrame.value);
      Ok(Create(glosses, false))
    else LegacyCreateVocab(dataFrame, trainManifest)
  }

  /** The finding in the legacy `create_vocab`: a given data frame never yields a
      vocabulary as written, while the intended reading builds one from it. */
  lemma LegacyCreateVocabRejectsDataFrame(records: seq<Record>, trainManifest: seq<ManifestRow>)
    requires forall i :: 0 <= i < |records| ==> records[i].annotation.Glosses?
    ensures LegacyCreateVocab(Some(records), trainManifest) == Err(ValueError)
    ensures LegacyCreateVocabIntended(Some(records), trainManifest) == Ok(Create(RecordGlosses(records), false))
  {
    AllItemsOfGlosses(records);
  }

  lemma {:induction false} AllItemsOfGlosses(records: seq<Record>)
    requires forall i :: 0 <= i < |records| ==> records[i].annotation.Glosses?
    ensures AllItems(records) == Ok(RecordGlosses(records))
  {
    if |records| > 0 {
      AllItemsOfGlosses(records[1..]);
      var xss := seq(|records|, i requires 0 <= i < |records| => records[i].annotation.tokens);
      assert xss[1..] == seq(|records[1..]|, i requires 0 <= i < |records[1..]| => records[1..][i].annotation.tokens);
    }
  }

  /** Whether `Path.glob("*.png")` lists a directory entry: the name ends in `.png`.
      Unlike the `glob` module, pathlib does not skip names starting with a dot, and
      `*` may match nothing. */
  predicate IsPng(name: string)
    ensures IsPng(name) <==> exists stem :: name == stem + ".png"
  {
    var b := |name| >= 4 && name[|name| - 4..] == ".png";
    assert b ==> name == name[..|name| - 4] + ".png";
    b
  }

  /** Hidden names and the bare `.png` are frames too; a name must end in `.png`. */
  lemma PngPatternExamples()
    ensures IsPng(".png") && IsPng(".x.png") && IsPng("a.png")
    ensures !IsPng("a.png.bak") && !IsPng("png") && !IsPng("a.PNG")
  {
    assert ".png" == "" + ".png";
    assert ".x.png" == ".x" + ".png";
    assert "a.png" == "a" + ".png";
  }

  /** How many of the listed names are PNG frames. */
  function PngCount(listing: seq<string>): nat
  {
    if |listing| == 0 then 0 else (if IsPng(listing[0]) then 1 else 0) + PngCount(listing[1..])
  }

  function PngPaths(dir: string, listing: seq<string>): (paths: seq<string>)
    ensures |paths| == PngCount(listing) <= |listing|
    ensures forall p :: p in paths <==> exists k :: 0 <= k < |listing| && IsPng(listing[k]) && p == dir + "/" + listing[k]
  {
    if |listing| == 0 then []
    else
      var rest := PngPaths(dir, listing[1..]);
      assert forall k :: 1 <= k < |listing| ==> listing[k] == listing[1..][k - 1];
      if IsPng(listing[0]) then [dir + "/" + listing[0]] + rest else rest
  }

  /** `get_frames`: the directory's PNG files in ascending path order. `listing` is the
      directory's entries in whatever order the file system gives them. */
  function GetFrames(dir: string, listing: seq<string>): (frames: seq<string>)
    ensures multiset(frames) == multiset(PngPaths(dir, listing))
    ensures |frames| == PngCount(listing)
    ensures forall i, j :: 0 <= i < j < |frames| ==> StrLe(frames[i], frames[j])
  {
    StrLeIsTotalPreorder();
    SortBySorted(PngPaths(dir, listing), StrLe);
    SortBy(PngPaths(dir, listing), StrLe)
  }
}
