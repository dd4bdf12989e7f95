# phoenix-datasets, modelled in Dafny

This project models the data pipeline of `phoenix_datasets`, a loader for the
RWTH-PHOENIX-Weather 2014 sign-language video corpus, and proves properties of
that model. Covered:

- **Gloss vocabulary (`LookupTable`).** The distinct glosses get the dense
  indices 0..d-1 in ascending string order. An optional trailing slot `d`
  stands for every unknown gloss.
- **Corpus loaders.** Covers both the current `corpora.py` and the older
  `corpus.py`:
  - the manifest rows with their whitespace-tokenised annotations;
  - the optional merge with the automatic frame alignment (class labels to sign
    states, `rstrip("012")`, id extraction from the frame path, group-by id,
    the 5671-id check);
  - the `folder` rewrite;
  - the sort by id;
  - vocabulary creation from the train split;
  - frame listing.
- **Frame sampling (`sample_indices`).**
  - Random mode keeps `int(n * (1 - p_drop))` indices of a shuffle, sorted.
  - Deterministic mode keeps `np.arange(0, n, 1 / p_kept)`, rounded half-to-even
    and clipped to `[0, n - 1]`.
- **Dataset access and collation.**
  - `VideoTextDataset.__init__`: the `p_drop` guard and the choice of vocabulary.
  - `__getitem__`: row, frames, sampled video and encoded labels.
  - `collate_fn` and the warn-once dict behind the deprecated `text` field.
- **Evaluator text formats.**
  - The CTM rows (`make_ctm`): zero-padded positions, `[EMPTY]` for a blank
    hypothesis, and `zip` truncation.
  - The TRN rows (`make_trn`).
  - The parser of sclite's `dtl` report (`parse_dtl`).
- **Gloss mapping of the language-model helper (`create_gloss_mapping`).**
  It maps a pronunciation key to the set of written glosses, from the lexicon's
  lemma records (first four skipped).

Modules follow the source:

| Module | Models |
|---|---|
| `Results` | Option, Result and the Python exceptions raised |
| `Lists` | Python slicing, `set`, `range`, flattening |
| `Strings` | the `str` methods used |
| `Ordering` | Python's string order |
| `Sorting` | a stable `sorted` |
| `Vocabulary` | `utils.py` |
| `Corpora` | `corpora.py` and `corpus.py` |
| `FrameSampler` | `sample_indices` |
| `Datasets` | the rest of `datasets.py` |
| `Evaluators` | `evaluators.py` |
| `LanguageModel` | `language_model.py` |

Things the model takes as parameters:

- Numbers:
  - `p_drop` is an exact rational (`real`).
  - numpy's shuffle is an explicit permutation argument.
- File system:
  - a frame directory is its list of entry names;
  - the contents of CSV, alignment and lexicon files arrive already parsed into
    rows and records.
- Frames: decoding one frame file is a caller-supplied function over an opaque
  frame type.

Things the code does that a reader might not expect, and that the model follows:

- **Random sampling can keep nothing.** In random mode a non-empty video can
  keep no frame at all: `int(1 * 0.5) == 0` (`FrameSampler.RandomCanKeepNone`).
  Deterministic mode always keeps one (`FrameSampler.EvenKeepsOne`).
- **Deterministic indices can repeat.** Clipping can repeat an index
  (`FrameSampler.ExampleClippedDuplicate`).
- **An empty sample is an error.** `np.stack` refuses an empty frame list with
  `ValueError`. That happens when the frame directory holds no PNG, and in random
  mode whenever `int(n * p_kept) == 0` (`Datasets.EmptyDirectoryFails`,
  `Datasets.RandomEmptySampleFails`).
- **Hidden files count as frames.** pathlib's `glob("*.png")` does not skip names
  starting with a dot, so `.png` and `.x.png` are frames (`Corpora.PngPatternExamples`).
- **`p_drop = 1` in deterministic mode.** The computation of `1 / p_kept`
  raises `ZeroDivisionError`. Nothing guards against it (`FrameSampler.DropAll`).
- **`parse_dtl` reads only the first section.** It reads the text between the
  first and the second `WORD RECOGNITION PERFORMANCE` heading, not everything
  after the first.
- **An aligned annotation is a string, not a token list.** It is the
  alignment's space-joined gloss string, so `__getitem__` encodes it character
  by character. An id with no alignment leaves NaN, and encoding NaN raises
  `TypeError` (`Corpora.Items`).

## Model

| member | source | states |
|---|---|---|
| Vocabulary.SortedKeys | phoenix_datasets/utils.py:9 | `sorted(set(keys))` is strictly ascending, holds exactly the keys' elements, one per distinct key |
| Vocabulary.SortedKeysUnique | phoenix_datasets/utils.py:9 | two strictly ascending lists with the same elements are equal, so the order `set` iterates in cannot affect the table |
| Vocabulary.IndexMap | phoenix_datasets/utils.py:10 | the enumerate-dict maps each key to its position and each index back to its key |
| Vocabulary.IndexMapOrdered | phoenix_datasets/utils.py:9-10 | over ascending keys the dict is onto 0..d-1 and preserves the string order |
| Vocabulary.Create | phoenix_datasets/utils.py:2-10 | the table's keys are the distinct keys, indices are below d, every index is used, and index order is string order |
| Vocabulary.Call | phoenix_datasets/utils.py:12-17 | a lookup fails exactly for an unknown key without unk, with `KeyError(key)`; results of a well-formed table are below `len` |
| Vocabulary.Shown | phoenix_datasets/utils.py:22-24 | the shown dict is the table plus `"unk"` bound to `len - 1` when unk is allowed, other keys unchanged |
| Vocabulary.CreateDependsOnlyOnKeySet | phoenix_datasets/utils.py:9-10 | two key lists with the same element set give the same table |
| Vocabulary.LenOfCreate | phoenix_datasets/utils.py:19-20 | `len` is the number of distinct keys plus one exactly when unk is allowed |
| Vocabulary.EncodeKnown | phoenix_datasets/utils.py:12-14 | a known key encodes, independently of `allow_unk`, to its position among the sorted distinct keys |
| Vocabulary.EncodeOrdered | phoenix_datasets/utils.py:9-14 | known keys encode in ascending string order, distinct keys to distinct indices |
| Vocabulary.EncodeUnknown | phoenix_datasets/utils.py:15-17 | an unknown key gets the slot d that no known key has when unk is allowed, and `KeyError` otherwise |
| Vocabulary.ShownOverridesUnk | phoenix_datasets/utils.py:23-24 | a literal key `"unk"` is hidden behind the unk slot in the shown dict, which then has d entries |
| Vocabulary.ExampleVocabulary | phoenix_datasets/utils.py:8-20 | the glosses {A, B, C} give A:0, B:1, C:2, unknown 3, `len` 4 |
| Sorting.SortBySorted | phoenix_datasets/utils.py:9 | sorting by a total preorder gives an ordered list |
| Sorting.SortByElems | phoenix_datasets/utils.py:9 | sorting keeps exactly the elements |
| Sorting.SortByDistinct | phoenix_datasets/utils.py:9 | sorting a list without repeats gives one without repeats |
| Sorting.SortByStable | phoenix_datasets/corpora.py:80 | sorting is stable: elements that are all less or equal to one another keep their relative order |
| Ordering.StrLeTotal | phoenix_datasets/utils.py:9 | Python's string order is total |
| Ordering.StrLeTrans | phoenix_datasets/utils.py:9 | Python's string order is transitive |
| Ordering.StrLeAntisym | phoenix_datasets/utils.py:9 | Python's string order is antisymmetric |
| Lists.Slice | phoenix_datasets/language_model.py:22 | a slice normalises negative and out-of-range bounds as Python does and is empty when they cross |
| Lists.Dedup | phoenix_datasets/utils.py:9 | `set(keys)` as a list: no repeats, the same elements |
| Strings.Split | phoenix_datasets/corpora.py:67 | `str.split()` yields whitespace-free non-empty tokens, none exactly when the text is all whitespace |
| Strings.SplitJoin | phoenix_datasets/corpora.py:67 | joining tokens with spaces and splitting again gives the tokens back |
| Strings.SplitOn | phoenix_datasets/corpora.py:48 | `s.split(sep)` pieces join back to `s` with `sep` and contain no `sep` |
| Strings.SplitOnJoin | phoenix_datasets/corpora.py:48 | splitting on a character undoes joining with it when no piece contains it |
| Strings.SplitOnCount | phoenix_datasets/evaluators.py:104-105 | splitting on a character gives one more piece than the character's occurrences |
| Strings.SplitOnFound | phoenix_datasets/evaluators.py:98 | a split has a second piece exactly when the separator occurs |
| Strings.RStrip | phoenix_datasets/corpora.py:46 | `rstrip(chars)` removes the longest suffix of characters from the set, nothing else |
| Strings.RStripIdempotent | phoenix_datasets/corpora.py:46 | stripping twice strips nothing more |
| Strings.Strip | phoenix_datasets/evaluators.py:99 | `strip()` removes a whitespace run from each end and keeps the middle of the text: the result is a slice with only whitespace outside it and none at its own ends |
| Strings.StripUnpadded | phoenix_datasets/evaluators.py:99 | text with no whitespace at either end is kept whole |
| Strings.SplitLines | phoenix_datasets/evaluators.py:100 | `splitlines()` gives lines without boundary characters, none for the empty text, and the whole text when it has no boundary |
| Strings.SplitLinesJoin | phoenix_datasets/evaluators.py:100 | text whose boundaries are all `"\n"` and that does not end in one is recovered by `"\n".join` of its lines |
| Strings.JoinSplitLines | phoenix_datasets/evaluators.py:100 | break-free lines whose last one is non-empty come back from `splitlines()` after `"\n".join` |
| Strings.BeforeLast | phoenix_datasets/corpora.py:78 | `rsplit("/", 1)[0]` is everything before the last `/`, or the whole text without one |
| Corpora.GlossOfState | phoenix_datasets/corpora.py:46 | a gloss is its sign state without the trailing state digits 0, 1, 2 |
| Corpora.GlossOfStateIdempotent | phoenix_datasets/corpora.py:46 | normalising a gloss again changes nothing |
| Corpora.AlignmentId | phoenix_datasets/corpora.py:48 | a frame path with at most five `/`-segments gives the empty id, one with six gives its fourth segment |
| Corpora.AlignmentIdSegments | phoenix_datasets/corpora.py:48 | the id keeps exactly the path segments after the third and before the last two, and is empty when there are none |
| Corpora.StatesFor | phoenix_datasets/corpora.py:43 | the left merge pairs a label with exactly the sign states of its class rows |
| Corpora.RowFrames | phoenix_datasets/corpora.py:43-48 | the merge gives one alignment row exactly one frame per matching sign state, carrying the row's id and the state's gloss |
| Corpora.AlignedFrames | phoenix_datasets/corpora.py:43-48 | it fails with `AttributeError` exactly when some label has no class; otherwise the frames are exactly those the rows' merges give, each gloss its sign state's gloss |
| Corpora.AlignedFramesAppend | phoenix_datasets/corpora.py:43-48 | the merge works row by row: a concatenation of alignment rows succeeds exactly when both parts do, with the parts' frames in order |
| Corpora.FramesWithId | phoenix_datasets/corpora.py:49 | the group of an id holds exactly the frames with that id |
| Corpora.Group | phoenix_datasets/corpora.py:49-52 | a group carries its id, and has empty strings when the id has no frame |
| Corpora.GroupSplits | phoenix_datasets/corpora.py:51-52 | splitting a group's strings on spaces gives back its frames' glosses and sign states in frame order, when none of them holds a space |
| Corpora.GroupById | phoenix_datasets/corpora.py:49-54 | one group per distinct id, in strictly ascending id order, each the join of that id's frames |
| Corpora.LoadAlignment | phoenix_datasets/corpora.py:35-60 | `AttributeError` for a label without a class, otherwise an `AssertionError` exactly when the number of ids is not 5671; a loaded alignment is the id-grouping of the merged frames |
| Corpora.AlignedAnnotation | phoenix_datasets/corpora.py:72-76 | the left merge gives the id's gloss string, or NaN exactly when the alignment lacks the id |
| Corpora.FolderOf | phoenix_datasets/corpora.py:78 | the folder becomes `split/` followed by the folder up to its last `/` |
| Corpora.LegacyLoadDataFrame | phoenix_datasets/corpus.py:55-72 | rows keep manifest order, id, signer and the rewritten folder; annotations are tokens, or the aligned text on the aligned train split |
| Corpora.LoadDataFrame | phoenix_datasets/corpora.py:62-82 | the same rows as a permutation, ordered by id, failing exactly when the unsorted load fails |
| Corpora.LoadDataFrameKeepsTies | phoenix_datasets/corpora.py:80 | rows sharing an id keep their manifest order |
| Corpora.Items | phoenix_datasets/datasets.py:98 | iterating an annotation gives its tokens, an aligned string's characters, or `TypeError` for NaN |
| Corpora.LegacyGlosses | phoenix_datasets/corpus.py:58-59 | the loaded rows hold exactly the manifest's whitespace tokens |
| Corpora.PermutedGlosses | phoenix_datasets/corpora.py:80 | reordering rows does not change which glosses they hold |
| Corpora.SortedRecordGlosses | phoenix_datasets/corpora.py:80 | the sorted train split holds the same glosses as the manifest |
| Corpora.CreateVocab | phoenix_datasets/corpora.py:19-25 | the vocabulary covers every train gloss, allows unk, has one entry per distinct gloss plus one, and never raises |
| Corpora.LegacyCreateVocab | phoenix_datasets/corpus.py:18-21 | as written: a given data frame raises `ValueError`; otherwise a table of the train glosses without unk that rejects others with `KeyError` |
| Corpora.AllItems | phoenix_datasets/corpus.py:20-21 | all glosses of a frame, failing exactly when some annotation is NaN |
| Corpora.LegacyCreateVocabIntended | phoenix_datasets/corpus.py:18-21 | a given data frame supplies the glosses; without one, the loaded train split does |
| Corpora.LegacyCreateVocabRejectsDataFrame | phoenix_datasets/corpus.py:19 | for the same data frame the code as written raises, the intended reading builds the vocabulary |
| Corpora.IsPng | phoenix_datasets/corpora.py:85 | `*.png` matches exactly the names ending in `.png`, hidden names and the bare `.png` included |
| Corpora.PngPatternExamples | phoenix_datasets/corpora.py:85 | `.png`, `.x.png` and `a.png` match; `a.png.bak`, `png` and `a.PNG` do not |
| Corpora.PngPaths | phoenix_datasets/corpora.py:85 | the glob lists exactly the entries matching `*.png`, prefixed by the directory |
| Corpora.GetFrames | phoenix_datasets/corpora.py:84-86 | the frames are those PNG paths, in ascending path order |
| FrameSampler.RoundHalfEven | phoenix_datasets/datasets.py:79 | `np.round` is within one half and sends ties to the even neighbour |
| FrameSampler.RoundMonotone | phoenix_datasets/datasets.py:79 | rounding preserves order |
| FrameSampler.KeptCount | phoenix_datasets/datasets.py:75 | `int(n * p_kept)` is the floor of the kept share, at most `n` |
| FrameSampler.RandomIndices | phoenix_datasets/datasets.py:72-76 | random mode keeps `int(n * p_kept)` distinct in-range indices, strictly ascending, exactly those at the front of the shuffle |
| FrameSampler.Clip | phoenix_datasets/datasets.py:80 | clipping lands in `[0, n - 1]` and keeps values already there |
| FrameSampler.EvenIndexMonotone | phoenix_datasets/datasets.py:78-80 | later positions of the stride never map to earlier frames |
| FrameSampler.EvenIndices | phoenix_datasets/datasets.py:77-81 | deterministic mode has `ceil(n * p_kept)` non-decreasing in-range indices, and raises `ZeroDivisionError` exactly at `p_drop = 1` |
| FrameSampler.SampleIndices | phoenix_datasets/datasets.py:70-82 | indices are in range and non-decreasing, strictly increasing in random mode; only deterministic `p_drop = 1` fails |
| FrameSampler.NoDropKeepsAll | phoenix_datasets/datasets.py:70-82 | with `p_drop = 0` both modes keep every frame in order, whatever the shuffle |
| FrameSampler.DropAll | phoenix_datasets/datasets.py:71-78 | with `p_drop = 1` random mode keeps nothing and deterministic mode divides by zero |
| FrameSampler.EvenKeepsOne | phoenix_datasets/datasets.py:78 | deterministic mode keeps at least one frame of a non-empty video |
| FrameSampler.RandomCanKeepNone | phoenix_datasets/datasets.py:75 | random mode can keep no frame of a one-frame video at `p_drop = 0.5` |
| FrameSampler.ExampleEvenStride | phoenix_datasets/datasets.py:77-81 | ten frames at `p_drop = 0.5` give 0, 2, 4, 6, 8 |
| FrameSampler.ExampleClippedDuplicate | phoenix_datasets/datasets.py:78-81 | four frames at `p_drop = 2/9` give 0, 1, 3, 3 |
| Datasets.NewDataset | phoenix_datasets/datasets.py:48-58 | construction fails with an assertion exactly outside `0 <= p_drop <= 1`; a given vocabulary is kept only when non-empty |
| Datasets.Size | phoenix_datasets/datasets.py:84-85 | `len` is the number of rows: exactly the indices from `-len` to `len - 1` reach a row |
| Datasets.FrameDir | phoenix_datasets/corpora.py:85 | the frame directory lies under `root/features/` and ends with the row's folder |
| Datasets.RowAt | phoenix_datasets/datasets.py:88 | `iloc` accepts `-len <= index < len`, negatives counting from the end, and raises `IndexError` otherwise |
| Datasets.EncodeAll | phoenix_datasets/datasets.py:98 | the labels are the lookups in order, or the first failing lookup's error |
| Datasets.SelectFrames | phoenix_datasets/datasets.py:93-96 | the video holds the decoded frame at each sampled index, in index order |
| Datasets.GetItem | phoenix_datasets/datasets.py:87-105 | an example is the indexed row with the sampled frames of its directory (at least one) and its encoded annotation; a bad index raises `IndexError`, the sampler's failure `ZeroDivisionError`, an empty sample `ValueError`; the only other failures are NaN's `TypeError` and an unknown gloss's `KeyError` |
| Datasets.EmptyDirectoryFails | phoenix_datasets/datasets.py:91-96 | a row whose directory holds no PNG never yields an example: `ValueError`, or `ZeroDivisionError` in deterministic mode at `p_drop = 1` |
| Datasets.RandomEmptySampleFails | phoenix_datasets/datasets.py:75-96 | in random mode a valid row fails with `ValueError` exactly when `int(n * p_kept)` is 0 |
| Datasets.NoDropVideo | phoenix_datasets/datasets.py:89-96 | with `p_drop = 0` the video is every frame of the directory in path order |
| Datasets.LabelsAlignWithTokens | phoenix_datasets/datasets.py:91-98 | with the unk slot, a tokenised row whose random sample keeps at least one frame always yields an example with one label per token |
| Datasets.WarnGet | phoenix_datasets/datasets.py:15-23 | a read prints exactly for an unwarned `"text"` on an enabled dict and records it; a missing key gets `[]` |
| Datasets.Subscript | phoenix_datasets/datasets.py:15-23 | only the warning dict can print; a plain dict raises `KeyError` on a missing key |
| Datasets.AppendSampleSpec | phoenix_datasets/datasets.py:111-118 | one iteration appends each field's value to that field's list, warns never, and touches no other key |
| Datasets.CollateLoopQuiet | phoenix_datasets/datasets.py:109-118 | the loop never warns, since `warning_enabled` is still off |
| Datasets.CollateLoopKeys | phoenix_datasets/datasets.py:109-118 | after at least one example the keys are exactly the six fields |
| Datasets.CollateLoopColumns | phoenix_datasets/datasets.py:109-118 | every field's list is that field's column, in batch order |
| Datasets.CollateFn | phoenix_datasets/datasets.py:107-122 | as written: a plain dict with the six columns (empty for an empty batch), and no warning recorded |
| Datasets.CollateIntended | phoenix_datasets/datasets.py:120-122 | the intended result keeps the enabled warning dict with the same entries |
| Datasets.CollatedTextNeverWarns | phoenix_datasets/datasets.py:120-122 | reading `"text"` from a collated batch as written never prints |
| Datasets.CollateIntendedWarnsOnce | phoenix_datasets/datasets.py:15-21 | the intended batch prints on the first `"text"` read only, and both reads see the label column |
| Datasets.TextMirrorsLabel | phoenix_datasets/datasets.py:113-115 | the deprecated `text` column equals `label` |
| Evaluators.ZeroPad | phoenix_datasets/evaluators.py:47 | `06d` pads with leading zeros to at least six characters and keeps the digits |
| Evaluators.ZeroPadDecimal | phoenix_datasets/evaluators.py:47 | below `10^w` the padded decimal is the fixed-width digit string |
| Evaluators.FixedDigitsValue | phoenix_datasets/evaluators.py:47 | fixed-width digits read back as the number |
| Evaluators.Position | phoenix_datasets/evaluators.py:47 | `f"{j:06d}"` has at least six digits, and below a million exactly six that read back as `j` |
| Evaluators.PositionOrder | phoenix_datasets/evaluators.py:45-47 | positions below a million have six characters and compare as strings exactly as the numbers do |
| Evaluators.Words | phoenix_datasets/evaluators.py:41-43 | a blank hypothesis becomes `[EMPTY]`, any other its whitespace tokens |
| Evaluators.SentenceRows | phoenix_datasets/evaluators.py:40-47 | a sentence gives one row per word |
| Evaluators.MakeCtm | phoenix_datasets/evaluators.py:37-49 | one row per word (at least one per sentence) over the zipped pairs, channel and duration 1, ids from the zipped ids |
| Evaluators.SentenceRowsWords | phoenix_datasets/evaluators.py:41-47 | a sentence's rows carry its id and its words in order; re-splitting the words gives its tokens back |
| Evaluators.SentenceRowsOrdered | phoenix_datasets/evaluators.py:44-47 | within a sentence of under a million words the position strings increase strictly |
| Evaluators.MakeCtmZip | phoenix_datasets/evaluators.py:40 | inputs beyond the shorter list are ignored |
| Evaluators.MakeCtmSnoc | phoenix_datasets/evaluators.py:39-47 | one more pair appends exactly that sentence's rows |
| Evaluators.MakeTrn | phoenix_datasets/evaluators.py:88-94 | one row per zipped triple carrying the sentence, and a tag that parses back to speaker and id when the speaker has no `-` |
| Evaluators.TagRoundTrip | phoenix_datasets/evaluators.py:92 | `(speaker-id)` is read back unambiguously when the speaker has no `-` |
| Evaluators.ReportLines | phoenix_datasets/evaluators.py:98-101 | a report without the heading raises `IndexError`; otherwise at most seven non-empty lines |
| Evaluators.ReportLinesSection | phoenix_datasets/evaluators.py:98-101 | for a report `pre + heading + body + rest`, where `rest` is empty or starts with the next heading, the lines are the first seven lines of the stripped body, empty ones dropped |
| Evaluators.NonEmpty | phoenix_datasets/evaluators.py:101 | the filter keeps exactly the non-empty lines |
| Evaluators.ParseLine | phoenix_datasets/evaluators.py:103-108 | a line parses exactly when it has one `=` and one `%` after it, into the normalised name and the stripped value; otherwise `ValueError` |
| Evaluators.ParseLineRoundTrip | phoenix_datasets/evaluators.py:103-108 | `name=value%rest` parses to the normalised name and stripped value |
| Evaluators.ParseLineNeedsEquals | phoenix_datasets/evaluators.py:104 | a line without `=` raises `ValueError` |
| Evaluators.ParseLines | phoenix_datasets/evaluators.py:110 | every line parsed in order, or `ValueError` exactly when one line fails |
| Evaluators.Figures | phoenix_datasets/evaluators.py:111 | the dict has no `correct`, at most one entry per line, and each entry comes from a line with that name and value |
| Evaluators.FiguresKeys | phoenix_datasets/evaluators.py:111 | the figures are named by exactly the line names other than `correct` |
| Evaluators.FiguresLastWins | phoenix_datasets/evaluators.py:111 | a repeated name keeps its last line's value |
| Evaluators.ParseDtl | phoenix_datasets/evaluators.py:96-113 | no heading gives `IndexError`; with one, it succeeds exactly when every report line parses, and the result is the figures dict of the parsed lines, without `correct` and with at most seven entries |
| Evaluators.ParseDtlKeys | phoenix_datasets/evaluators.py:103-111 | the figures are named by exactly the parsed names of the report lines, other than `correct` |
| Results.Collect | phoenix_datasets/evaluators.py:110 | a comprehension succeeds exactly when every element does, and otherwise reports the first failure |
| LanguageModel.Values | phoenix_datasets/language_model.py:29-33 | a single field becomes a one-element list, a list stays |
| LanguageModel.PhonKey | phoenix_datasets/language_model.py:37-39 | a blank pronunciation raises `IndexError`; the key is the first token less its last character exactly when that is a digit |
| LanguageModel.PhonKeyOfToken | phoenix_datasets/language_model.py:37-39 | a token and the token with one digit appended share their key; only one digit is removed |
| LanguageModel.Insert | phoenix_datasets/language_model.py:40 | adding a gloss under a key grows that key's set by it and nothing else |
| LanguageModel.AddPhons | phoenix_datasets/language_model.py:36-40 | the inner loop fails exactly on a blank pronunciation; otherwise each key of the list gains the gloss |
| LanguageModel.AddOrths | phoenix_datasets/language_model.py:35-40 | the nested loops give each pronunciation key all the record's glosses, and fail only if there is a gloss and a blank pronunciation |
| LanguageModel.AddLemmas | phoenix_datasets/language_model.py:22-40 | the record loop fails exactly when some usable record has a gloss and a blank pronunciation |
| LanguageModel.AddLemmasGrows | phoenix_datasets/language_model.py:35-40 | no key disappears and no set shrinks |
| LanguageModel.AddLemmasMembership | phoenix_datasets/language_model.py:22-40 | a gloss is under a key exactly when it was before or some record pairs them |
| LanguageModel.Used | phoenix_datasets/language_model.py:22 | `[4:]` keeps the records from the fifth on, in order |
| LanguageModel.CreateGlossMapping | phoenix_datasets/language_model.py:13-42 | the mapping is built exactly when no record from the fifth on fails |
| LanguageModel.SkippedRecordsIgnored | phoenix_datasets/language_model.py:22 | the first four records have no influence |
| LanguageModel.GlossMappingMembership | phoenix_datasets/language_model.py:20-42 | a key maps to exactly the glosses the records from the fifth on pair with it |
| LanguageModel.GlossMappingNonEmpty | phoenix_datasets/language_model.py:20-40 | no stored set is empty |
| LanguageModel.LookupGloss | phoenix_datasets/language_model.py:42 | an absent key gives `{"[UNKNOWN]"}`, a present key its set |
| LanguageModel.LookupNeverEmpty | phoenix_datasets/language_model.py:9-10 | every lookup on a created mapping yields at least one gloss |

## Findings

| source | as written | input that shows it | evidently intended | confidence | as-written member | corrected member |
|---|---|---|---|---|---|---|
| phoenix_datasets/datasets.py:120-122 | `collate_fn` enables the warning on `collated`, then returns `dict(collated)`, a plain dict that has lost the warning `__getitem__` | any non-empty batch, then `batch["text"]` | the first `batch["text"]` read in the process prints the deprecation warning, later reads do not | high; not executed | Datasets.CollatedTextNeverWarns | Datasets.CollateIntendedWarnsOnce |
| phoenix_datasets/corpus.py:19 | `data_frame or self.load_data_frame("train")` asks a DataFrame for its truth value, which pandas refuses with `ValueError` | `create_vocab(data_frame=df)` for any DataFrame `df` | a given data frame supplies the glosses | high; not executed | Corpora.LegacyCreateVocabRejectsDataFrame | Corpora.LegacyCreateVocabIntended |

## Left out

- Image decoding, the torchvision transforms and tensor stacking are left out: frames are opaque values and decoding is a parameter.
- numpy's random shuffle is left out: the permutation it draws is a parameter.
- File system access, `glob`, `Path` handling and pandas' CSV parsing are left out. Rows, listings and lexicon records arrive already parsed.
- NaN cells other than a missing alignment merge are not modelled.
- pandas' `sort_values` is left out: it does not promise an order among equal ids. `LoadDataFrame` keeps them in manifest order (`Corpora.LoadDataFrameKeepsTies`).
- Floating-point rounding is left out: `p_drop` and the stride are exact rationals. Float effects in `n * p_kept` and `np.arange` are not modelled.
- Evaluators.ParseDtl: values stay as stripped text. `float(value)` and its `ValueError` on non-numeric text are not modelled.
- PhoenixEvaluator's I/O is left out: `__init__`'s sclite lookup, `working_directory`, `fix_scripts`, `fix_main_script`, `fix_mergectmstm`, `link_files`, `evaluate` and the sclite subprocess. Also excluded is the `#hyps` warning `evaluate` prints. These are all process and file-system work.
- `SRILM` (ARPA loading and scoring) and the XML parsing of `3state.lex` are left out: both are foreign libraries and file I/O.
- LanguageModel.PhonKey: a pronunciation that is not a string (`None` for an empty XML element) would raise `AttributeError`. It is not modelled.
- `PhoenixTCorpus`, `phoenixT.py`, `phoenix.py`, `__init__.py`, `example.py` and `setup.py` are not part of this model. They hold wiring, not logic.
- The `Corpus is not None` assertion of `VideoTextDataset.__init__` is left out: the model always uses the Phoenix corpus.
- `create_lm` is left out: it only combines the two loaders.
- The `mean`/`std` constants are left out: they are used only by the transforms.
- Vocabulary.Shown: models the dict that `__str__` renders, not the rendered text.
- Strings.Lower: only ASCII letters are lowered. Unicode case mapping is not modelled.
- Strings.IsSpace uses Python's whitespace set. `isdigit` is modelled as the ASCII digits only.
- Datasets.GetItem: the record's other manifest columns are carried in `Record`. The copy into a fresh dict is not modelled separately.
- Datasets.CollateFn: the tensor conversions (`torch.tensor(...).float()` and `.long()`) are not modelled. The video and label values are appended as they are.
