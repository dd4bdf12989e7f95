/** The text formats of the WER evaluator (phoenix_datasets/evaluators.py): the CTM
    hypothesis rows, the TRN rows and the parser of sclite's `dtl` report. Running
    sclite and the file system work around it are not modelled. */
module Evaluators {
  import opened Results
  import opened Lists
  import opened Strings
  import opened Ordering

  // ---------------------------------------------------------------- positions

  function DigitChar(d: nat): char
    requires d < 10
  {
    ('0' as int + d) as char
  }

  predicate IsDigitChar(c: char)
  {
    '0' <= c <= '9'
  }

  function DigitValue(c: char): nat
    requires IsDigitChar(c)
  {
    c as int - '0' as int
  }

  function Pow10(w: nat): (p: nat)
    ensures p >= 1
  {
    if w == 0 then 1 else 10 * Pow10(w - 1)
  }

  /** `str(n)` for a natural: its decimal digits, no leading zero. */
  function Decimal(n: nat): (s: string)
    ensures |s| >= 1
    ensures forall i :: 0 <= i < |s| ==> IsDigitChar(s[i])
  {
    if n < 10 then [DigitChar(n)] else Decimal(n / 10) + [DigitChar(n % 10)]
  }

  /** The format spec `06d`: left-padded with zeros to at least six characters. */
  function ZeroPad(s: string, width: nat): (r: string)
    ensures |r| == if |s| >= width then |s| else width
    ensures r[|r| - |s|..] == s
    ensures forall i :: 0 <= i < |r| - |s| ==> r[i] == '0'
  {
    if |s| >= width then s else seq(width - |s|, _ => '0') + s
  }

  /** The position string `f"{j:06d}"` of the `j`-th word of a sentence: below a
      million, exactly six digits that read back as `j`. */
  function Position(j: nat): (p: string)
    ensures |p| >= 6 && forall i :: 0 <= i < |p| ==> IsDigitChar(p[i])
    ensures j < 1000000 ==> |p| == 6 && DigitsValue(p) == j
  {
    var p := ZeroPad(Decimal(j), 6);
    if j < 1000000 then
      assert Pow10(6) == 1000000;
      ZeroPadDecimal(j, 6);
      FixedDigitsValue(j, 6);
      p
    else p
  }

  /** Exactly `w` decimal digits of `n`, most significant first (a reference form). */
  function FixedDigits(n: nat, w: nat): (s: string)
    ensures |s| == w
    ensures forall i :: 0 <= i < w ==> IsDigitChar(s[i])
  {
    if w == 0 then [] else FixedDigits(n / 10, w - 1) + [DigitChar(n % 10)]
  }

  /** The number a string of decimal digits denotes. */
  function DigitsValue(s: string): nat
    requires forall i :: 0 <= i < |s| ==> IsDigitChar(s[i])
  {
    if |s| == 0 then 0 else 10 * DigitsValue(s[..|s| - 1]) + DigitValue(s[|s| - 1])
  }

  /** Fixed-width digits read back as the number they encode. */
  lemma {:induction false} FixedDigitsValue(n: nat, w: nat)
    requires n < Pow10(w)
    ensures DigitsValue(FixedDigits(n, w)) == n
  {
    if w > 0 {
      var s := FixedDigits(n, w);
      assert s[..|s| - 1] == FixedDigits(n / 10, w - 1);
      FixedDigitsValue(n / 10, w - 1);
    }
  }

  /** Fixed-width digits of numbers that fit are distinct. */
  lemma FixedDigitsInjective(a: nat, b: nat, w: nat)
    requires a < Pow10(w) && b < Pow10(w)
    requires FixedDigits(a, w) == FixedDigits(b, w)
    ensures a == b
  {
    FixedDigitsValue(a, w);
    FixedDigitsValue(b, w);
  }

  /** Padding a string of digits grows on the left only. */
  lemma ZeroPadSnoc(s: string, c: char, w: nat)
    requires w >= 1 && |s| + 1 <= w
    ensures ZeroPad(s + [c], w) == ZeroPad(s, w - 1) + [c]
  {
  }

  /** Below `10^w`, the padded decimal is the fixed-width form. */
  lemma {:induction false} ZeroPadDecimal(n: nat, w: nat)
    requires w >= 1 && n < Pow10(w)
    ensures ZeroPad(Decimal(n), w) == FixedDigits(n, w)
  {
    if n < 10 {
      if w == 1 {
        assert FixedDigits(n, 0) == [];
      } else {
        assert FixedDigits(n / 10, w - 1) == seq(w - 1, _ => '0') by {
          FixedZero(w - 1);
        }
      }
    } else {
      assert Pow10(1) == 10;
      assert w >= 2;
      DecimalLength(n / 10, w - 1);
      ZeroPadSnoc(Decimal(n / 10), DigitChar(n % 10), w);
      ZeroPadDecimal(n / 10, w - 1);
    }
  }

  lemma {:induction false} FixedZero(w: nat)
    ensures FixedDigits(0, w) == seq(w, _ => '0')
  {
    if w > 0 {
      FixedZero(w - 1);
    }
  }

  /** A number below `10^w` has at most `w` decimal digits. */
  lemma {:induction false} DecimalLength(n: nat, w: nat)
    requires w >= 1 && n < Pow10(w)
    ensures |Decimal(n)| <= w
  {
    if n >= 10 {
      assert Pow10(1) == 10;
      assert w >= 2;
      DecimalLength(n / 10, w - 1);
    }
  }

  /** Fixed-width digit strings compare as the numbers they encode. */
  lemma {:induction false} FixedDigitsOrder(a: nat, b: nat, w: nat)
    requires a < Pow10(w) && b < Pow10(w)
    ensures StrLe(FixedDigits(a, w), FixedDigits(b, w)) <==> a <= b
  {
    if w == 0 {
      assert a == 0 && b == 0;
    } else {
      var A := FixedDigits(a / 10, w - 1);
      var B := FixedDigits(b / 10, w - 1);
      FixedDigitsOrder(a / 10, b / 10, w - 1);
      StrLeSnoc(A, DigitChar(a % 10), B, DigitChar(b % 10));
      if A == B {
        FixedDigitsInjective(a / 10, b / 10, w - 1);
      }
    }
  }

  /** Positions below a million are six digits long and sort as strings exactly as
      the numbers sort, which is what sclite's scoring script relies on. */
  lemma PositionOrder(i: nat, j: nat)
    requires i < 1000000 && j < 1000000
    ensures |Position(i)| == 6 && |Position(j)| == 6
    ensures StrLe(Position(i), Position(j)) <==> i <= j
    ensures Position(i) == Position(j) <==> i == j
  {
    assert Pow10(6) == 1000000;
    ZeroPadDecimal(i, 6);
    ZeroPadDecimal(j, 6);
    FixedDigitsOrder(i, j, 6);
    if Position(i) == Position(j) {
      FixedDigitsInjective(i, j, 6);
    }
  }

  // ---------------------------------------------------------------- CTM rows

  /** The placeholder word of a hypothesis with no words. */
  const EmptyWord := "[EMPTY]"

  /** One CTM line: `id 1 position 1 word`. */
  datatype CtmRow = CtmRow(id: string, channel: nat, start: string, duration: nat, word: string)

  /** The words written for one hypothesis sentence. */
  function Words(sentence: string): (ws: seq<string>)
    ensures |ws| >= 1
    ensures AllSpace(sentence) ==> ws == [EmptyWord]
    ensures !AllSpace(sentence) ==> ws == Split(sentence)
  {
    var split := Split(sentence);
    if |split| == 0 then [EmptyWord] else split
  }

  /** The rows of one sentence, words in order, position `j` for the `j`-th word. */
  function SentenceRows(id: string, sentence: string): (rows: seq<CtmRow>)
    ensures |rows| == |Words(sentence)|
  {
    var ws := Words(sentence);
    seq(|ws|, j requires 0 <= j < |ws| => CtmRow(id, 1, Position(j), 1, ws[j]))
  }

  /** The expected number of rows: one per word, at least one per sentence, over the
      pairs `zip` forms. */
  function CtmSize(ids: seq<string>, sentences: seq<string>): nat
  {
    if |ids| == 0 || |sentences| == 0 then 0
    else
      var n := |Split(sentences[0])|;
      (if n == 0 then 1 else n) + CtmSize(ids[1..], sentences[1..])
  }

  function Min(a: nat, b: nat): nat
  {
    if a <= b then a else b
  }

  /** `make_ctm(ids, sentences)`, the data frame as its list of rows. */
  function MakeCtm(ids: seq<string>, sentences: seq<string>): (rows: seq<CtmRow>)
    ensures |rows| == CtmSize(ids, sentences)
    ensures forall k :: 0 <= k < |rows| ==> rows[k].channel == 1 && rows[k].duration == 1
    ensures forall k :: 0 <= k < |rows| ==> rows[k].id in ids[..Min(|ids|, |sentences|)]
  {
    if |ids| == 0 || |sentences| == 0 then []
    else
      var rest := MakeCtm(ids[1..], sentences[1..]);
      assert forall x :: x in ids[1..][..Min(|ids| - 1, |sentences| - 1)] ==> x in ids[..Min(|ids|, |sentences|)] by {
        assert ids[1..][..Min(|ids| - 1, |sentences| - 1)] == ids[1..Min(|ids|, |sentences|)];
      }
      var head := SentenceRows(ids[0], sentences[0]);
      assert |head| == |Words(sentences[0])|;
      head + rest
  }

  /** The word column of a block of rows. */
  function WordColumn(rows: seq<CtmRow>): (ws: seq<string>)
    ensures |ws| == |rows|
  {
    seq(|rows|, k requires 0 <= k < |rows| => rows[k].word)
  }

  /** A sentence's rows carry its id and its words in order; reading the words
      back and splitting them again recovers the tokens. */
  lemma SentenceRowsWords(id: string, sentence: string)
    ensures var rows := SentenceRows(id, sentence);
      && (forall k :: 0 <= k < |rows| ==> rows[k].id == id)
      && WordColumn(rows) == Words(sentence)
      && (!AllSpace(sentence) ==> Split(Join(" ", WordColumn(rows))) == Split(sentence))
  {
    var rows := SentenceRows(id, sentence);
    assert WordColumn(rows) == Words(sentence);
    SplitIdempotent(sentence);
  }

  /** Within a sentence of fewer than a million words, the position strings
      increase strictly in row order. */
  lemma SentenceRowsOrdered(id: string, sentence: string)
    requires |Split(sentence)| < 1000000
    ensures var rows := SentenceRows(id, sentence);
      forall i, j :: 0 <= i < j < |rows| ==> StrLt(rows[i].start, rows[j].start)
  {
    var rows := SentenceRows(id, sentence);
    assert |rows| < 1000000 by {
      assert |Words(sentence)| <= |Split(sentence)| || |Words(sentence)| == 1;
    }
    forall i, j | 0 <= i < j < |rows| ensures StrLt(rows[i].start, rows[j].start) {
      SentenceRowStart(id, sentence, i);
      SentenceRowStart(id, sentence, j);
      PositionOrder(i, j);
    }
  }

  lemma SentenceRowStart(id: string, sentence: string, k: nat)
    requires k < |SentenceRows(id, sentence)|
    ensures SentenceRows(id, sentence)[k].start == Position(k)
  {
    var ws := Words(sentence);
    var rows := seq(|ws|, j requires 0 <= j < |ws| => CtmRow(id, 1, Position(j), 1, ws[j]));
    assert SentenceRows(id, sentence) == rows;
    assert rows[k].start == Position(k);
  }

  /** Rows beyond the shorter input are never produced: `zip` drops them. */
  lemma {:induction false} MakeCtmZip(ids: seq<string>, sentences: seq<string>)
    ensures var m := Min(|ids|, |sentences|);
      MakeCtm(ids, sentences) == MakeCtm(ids[..m], sentences[..m])
  {
    var m := Min(|ids|, |sentences|);
    if m > 0 {
      MakeCtmZip(ids[1..], sentences[1..]);
      assert ids[..m][1..] == ids[1..][..Min(|ids| - 1, |sentences| - 1)];
      assert sentences[..m][1..] == sentences[1..][..Min(|ids| - 1, |sentences| - 1)];
    }
  }

  /** Adding one more pair appends exactly that sentence's rows. */
  lemma {:induction false} MakeCtmSnoc(ids: seq<string>, sentences: seq<string>, id: string, sentence: string)
    requires |ids| == |sentences|
    ensures MakeCtm(ids + [id], sentences + [sentence]) == MakeCtm(ids, sentences) + SentenceRows(id, sentence)
  {
    if |ids| > 0 {
      assert (ids + [id])[1..] == ids[1..] + [id];
      assert (sentences + [sentence])[1..] == sentences[1..] + [sentence];
      MakeCtmSnoc(ids[1..], sentences[1..], id, sentence);
    }
  }

  // ---------------------------------------------------------------- TRN rows

  /** One TRN line: the sentence and its `(speaker-id)` tag. */
  datatype TrnRow = TrnRow(sentence: string, tag: string)

  function Tag(speaker: string, id: string): string
  {
    "(" + speaker + "-" + id + ")"
  }

  /** `make_trn(ids, sentences, speakers)`, the data frame as its list of rows. */
  function MakeTrn(ids: seq<string>, sentences: seq<string>, speakers: seq<string>): (rows: seq<TrnRow>)
    ensures |rows| == Min(Min(|ids|, |sentences|), |speakers|)
    ensures forall i :: 0 <= i < |rows| ==> rows[i].sentence == sentences[i]
    ensures forall i :: 0 <= i < |rows| && '-' !in speakers[i] ==> ParseTag(rows[i].tag) == Some((speakers[i], ids[i]))
  {
    if |ids| == 0 || |sentences| == 0 || |speakers| == 0 then []
    else
      TagRoundTrip(speakers[0], ids[0]);
      [TrnRow(sentences[0], Tag(speakers[0], ids[0]))] + MakeTrn(ids[1..], sentences[1..], speakers[1..])
  }

  /** Reads a tag back: the text inside the parentheses, split at its first `-`. */
  function ParseTag(tag: string): Option<(string, string)>
  {
    if |tag| < 2 || tag[0] != '(' || tag[|tag| - 1] != ')' then None
    else
      var inner := tag[1..|tag| - 1];
      if '-' !in inner then None
      else
        var k := IndexOf(inner, '-');
        Some((inner[..k], inner[k + 1..]))
  }

  /** A tag names its speaker and utterance unambiguously as long as the speaker
      contains no `-` (utterance ids may). */
  lemma TagRoundTrip(speaker: string, id: string)
    ensures '-' !in speaker ==> ParseTag(Tag(speaker, id)) == Some((speaker, id))
  {
    if '-' !in speaker {
      var tag := Tag(speaker, id);
      var inner := tag[1..|tag| - 1];
      assert inner == speaker + "-" + id;
      assert inner[|speaker|] == '-';
      assert inner[..|speaker|] == speaker;
      IndexOfFirst(inner, '-', |speaker|);
    }
  }

  /** The first position holding `c` is what `IndexOf` returns. */
  lemma IndexOfFirst(s: string, c: char, k: nat)
    requires k < |s| && s[k] == c && c !in s[..k]
    ensures IndexOf(s, c) == k
  {
    var i := IndexOf(s, c);
    assert forall j :: 0 <= j < k ==> s[..k][j] == s[j];
    assert forall j :: 0 <= j < i ==> s[..i][j] == s[j];
  }

  // ---------------------------------------------------------------- dtl report

  /** The heading after which sclite's `dtl` report lists its summary figures. */
  const Marker := "WORD RECOGNITION PERFORMANCE"

  /** The summary lines of a report: the text between the first and the second
      marker, stripped, its first seven lines, empty ones dropped. */
  function ReportLines(dtl: string): (r: Result<seq<string>>)
    ensures r.Ok? <==> Contains(dtl, Marker)
    ensures r.Err? ==> r.error == IndexError
    ensures r.Ok? ==> |r.value| <= 7 && forall i :: 0 <= i < |r.value| ==> r.value[i] != ""
  {
    var parts := SplitOn(dtl, Marker);
    SplitOnFound(dtl, Marker);
    if |parts| < 2 then Err(IndexError)
    else Ok(NonEmpty(Slice(SplitLines(Strip(parts[1])), 0, 7)))
  }

  /** The heading has no border: no proper suffix of it starts it again, so two
      occurrences of it can never overlap. */
  lemma MarkerNoBorder()
    ensures forall k :: 0 < k < |Marker| ==> Marker[k] != Marker[0]
  {
  }

  /** The first heading of `a + Marker + b` is the one after `a` when `a` has none. */
  lemma FirstMarker(a: string, b: string)
    requires !Contains(a, Marker)
    ensures FindFrom(a + Marker + b, Marker, 0) == Some(|a|)
  {
    var s := a + Marker + b;
    assert s[|a|..|a| + |Marker|] == Marker;
    forall j | 0 <= j < |a| ensures !OccursAt(s, Marker, j) {
      if j + |Marker| <= |a| {
        PrefixOccurs(s, |a|, Marker, j);
        assert s[..|a|] == a;
        assert !OccursAt(a, Marker, j);
      } else if OccursAt(s, Marker, j) {
        assert s[j..j + |Marker|][|a| - j] == s[|a|] == Marker[0];
        MarkerNoBorder();
        assert false;
      }
    }
    FindFromFirst(s, Marker, 0, |a|);
  }

  /** Text without the heading is a single piece. */
  lemma SplitOnNoMarker(b: string)
    requires !Contains(b, Marker)
    ensures SplitOn(b, Marker) == [b]
  {
    assert FindFrom(b, Marker, 0) == None;
  }

  /** The summary lines are read from the first section only: the text after the
      first heading and up to the next one (or the end), stripped, its first seven
      lines, blank ones dropped. */
  lemma ReportLinesSection(pre: string, body: string, rest: string)
    requires !Contains(pre, Marker) && !Contains(body, Marker)
    requires rest == "" || OccursAt(rest, Marker, 0)
    ensures ReportLines(pre + Marker + body + rest) == Ok(NonEmpty(Slice(SplitLines(Strip(body)), 0, 7)))
  {
    var dtl := pre + Marker + (body + rest);
    assert dtl == pre + Marker + body + rest;
    FirstMarker(pre, body + rest);
    SplitOnStep(dtl, Marker, |pre|);
    assert dtl[|pre| + |Marker|..] == body + rest;
    if rest == "" {
      assert body + rest == body;
      SplitOnNoMarker(body);
    } else {
      var after := rest[|Marker|..];
      assert rest == Marker + after;
      assert body + rest == body + Marker + after;
      FirstMarker(body, after);
      SplitOnStep(body + rest, Marker, |body|);
      assert (body + rest)[..|body|] == body;
    }
    assert SplitOn(dtl, Marker)[1] == body;
  }

  /** `filter(lambda l: l, lines)`. */
  function NonEmpty(lines: seq<string>): (r: seq<string>)
    ensures |r| <= |lines|
    ensures forall i :: 0 <= i < |r| ==> r[i] != "" && r[i] in lines
    ensures forall l :: l in lines && l != "" ==> l in r
  {
    if |lines| == 0 then []
    else
      var rest := NonEmpty(lines[1..]);
      assert forall i :: 1 <= i < |lines| ==> lines[i] == lines[1..][i - 1];
      if lines[0] == "" then rest else [lines[0]] + rest
  }

  /** The name of a summary figure: lower-cased, `percent` removed, stripped. */
  function FigureName(left: string): string
  {
    Strip(RemoveAll(Lower(left), "percent"))
  }

  /** `parse_line`: `name = value% rest`, with exactly one `=` on the line and
      exactly one `%` after it; the value is kept as its stripped text. */
  function ParseLine(line: string): (r: Result<(string, string)>)
    ensures r.Ok? <==> CountChar(line, '=') == 1 && CountChar(line[IndexOf(line, '=') + 1..], '%') == 1
    ensures r.Err? ==> r.error == ValueError
    ensures r.Ok? ==> var k := IndexOf(line, '=');
      var tail := line[k + 1..];
      r.value == (FigureName(line[..k]), Strip(tail[..IndexOf(tail, '%')]))
  {
    var halves := SplitOn(line, "=");
    SplitOnCount(line, '=');
    if |halves| != 2 then Err(ValueError)
    else
      SplitOnOne(line, '=');
      var tail := SplitOn(halves[1], "%");
      SplitOnCount(halves[1], '%');
      if |tail| != 2 then Err(ValueError)
      else
        SplitOnOne(halves[1], '%');
        Ok((FigureName(halves[0]), Strip(tail[0])))
  }

  /** Where the single `c` sits in `left + [c] + right` when neither side has one. */
  lemma SingleSeparator(left: string, c: char, right: string)
    requires c !in left && c !in right
    ensures var s := left + [c] + right;
      CountChar(s, c) == 1 && IndexOf(s, c) == |left| && s[..|left|] == left && s[|left| + 1..] == right
  {
    var s := left + [c] + right;
    CountCharAppend(left, [c] + right, c);
    CountCharAppend([c], right, c);
    assert s == left + ([c] + right);
    assert s[|left|] == c && s[..|left|] == left;
    IndexOfFirst(s, c, |left|);
  }

  /** A line laid out as sclite writes it parses into its name and value. */
  lemma ParseLineRoundTrip(name: string, value: string, rest: string)
    requires '=' !in name && '=' !in value && '=' !in rest
    requires '%' !in value && '%' !in rest
    ensures ParseLine(name + "=" + value + "%" + rest) == Ok((FigureName(name), Strip(value)))
  {
    var tail := value + ['%'] + rest;
    var line := name + ['='] + tail;
    assert line == name + "=" + value + "%" + rest;
    SingleSeparator(value, '%', rest);
    SingleSeparator(name, '=', tail);
    var r := ParseLine(line);
    assert r.Ok?;
    assert r.value == (FigureName(name), Strip(value));
  }

  /** A line without `=` is rejected. */
  lemma ParseLineNeedsEquals(line: string)
    requires '=' !in line
    ensures ParseLine(line) == Err(ValueError)
  {
  }

  /** Every line's parse result, failures included. */
  function ParseEach(lines: seq<string>): (rs: seq<Result<(string, string)>>)
    ensures |rs| == |lines|
    ensures forall i :: 0 <= i < |lines| ==> rs[i] == ParseLine(lines[i])
  {
    if |lines| == 0 then [] else [ParseLine(lines[0])] + ParseEach(lines[1..])
  }

  /** `[parse_line(l) for l in lines]`: every line parsed, or the first failure. */
  function ParseLines(lines: seq<string>): (r: Result<seq<(string, string)>>)
    ensures r.Ok? <==> forall i :: 0 <= i < |lines| ==> ParseLine(lines[i]).Ok?
    ensures r.Ok? ==> |r.value| == |lines| && forall i :: 0 <= i < |lines| ==> ParseLine(lines[i]) == Ok(r.value[i])
    ensures r.Err? ==> r.error == ValueError
  {
    Collect(ParseEach(lines))
  }

  /** Some line of `pairs` gives the name `n` the value `v`. */
  predicate HasPair(pairs: seq<(string, string)>, n: string, v: string)
  {
    exists i :: 0 <= i < |pairs| && pairs[i] == (n, v)
  }

  /** `{n: v for n, v in pairs if n != "correct"}`: later pairs overwrite earlier ones. */
  function Figures(pairs: seq<(string, string)>): (m: map<string, string>)
    ensures "correct" !in m
    ensures |m| <= |pairs|
    ensures forall n :: n in m ==> HasPair(pairs, n, m[n])
  {
    if |pairs| == 0 then map[]
    else
      var init := pairs[..|pairs| - 1];
      var last := pairs[|pairs| - 1];
      var m := Figures(init);
      assert forall i :: 0 <= i < |init| ==> init[i] == pairs[i];
      if last.0 == "correct" then m else m[last.0 := last.1]
  }

  /** The figures are named by exactly the lines' names other than `correct`. */
  lemma {:induction false} FiguresKeys(pairs: seq<(string, string)>, n: string)
    ensures n in Figures(pairs) <==> n != "correct" && exists i :: 0 <= i < |pairs| && pairs[i].0 == n
  {
    if |pairs| > 0 {
      var init := pairs[..|pairs| - 1];
      FiguresKeys(init, n);
      FiguresKeyStep(pairs, n);
      NamedSnoc(pairs, n);
    }
  }

  lemma FiguresKeyStep(pairs: seq<(string, string)>, n: string)
    requires |pairs| > 0
    ensures var last := pairs[|pairs| - 1];
      n in Figures(pairs) <==> n in Figures(pairs[..|pairs| - 1]) || (n == last.0 && n != "correct")
  {
  }

  lemma NamedSnoc(pairs: seq<(string, string)>, n: string)
    requires |pairs| > 0
    ensures var init := pairs[..|pairs| - 1];
      (exists i :: 0 <= i < |pairs| && pairs[i].0 == n)
      <==> (exists i :: 0 <= i < |init| && init[i].0 == n) || pairs[|pairs| - 1].0 == n
  {
    var init := pairs[..|pairs| - 1];
    assert forall i :: 0 <= i < |init| ==> pairs[i] == init[i];
  }

  /** Each figure holds the value of the last line with its name. */
  lemma {:induction false} FiguresLastWins(pairs: seq<(string, string)>, n: string, i: nat)
    requires i < |pairs| && pairs[i].0 == n && n != "correct"
    requires forall j :: i < j < |pairs| ==> pairs[j].0 != n
    ensures n in Figures(pairs) && Figures(pairs)[n] == pairs[i].1
  {
    var init := pairs[..|pairs| - 1];
    if i < |pairs| - 1 {
      FiguresLastWins(init, n, i);
    }
  }

  /** `parse_dtl(dtl)`: the figures of the summary lines, so `FiguresKeys` and
      `FiguresLastWins` describe its value. */
  function ParseDtl(dtl: string): (r: Result<map<string, string>>)
    ensures !Contains(dtl, Marker) ==> r == Err(IndexError)
    ensures r.Err? ==> r.error == IndexError || r.error == ValueError
    ensures ReportLines(dtl).Ok? ==>
              (r.Ok? <==> forall i :: 0 <= i < |ReportLines(dtl).value| ==> ParseLine(ReportLines(dtl).value[i]).Ok?)
    ensures r.Ok? ==> "correct" !in r.value && |r.value| <= 7
    ensures r.Ok? ==>
              && ReportLines(dtl).Ok? && ParseLines(ReportLines(dtl).value).Ok?
              && r.value == Figures(ParseLines(ReportLines(dtl).value).value)
  {
    var lines :- ReportLines(dtl);
    var pairs :- ParseLines(lines);
    Ok(Figures(pairs))
  }

  /** A figure of the report is named by one of its summary lines, and every summary
      line other than `correct` names one. */
  lemma ParseDtlKeys(dtl: string, n: string)
    requires ParseDtl(dtl).Ok?
    ensures var lines := ReportLines(dtl).value;
      (n in ParseDtl(dtl).value <==> n != "correct" && exists i :: 0 <= i < |lines| && ParseLine(lines[i]).value.0 == n)
  {
    var lines := ReportLines(dtl).value;
    var pairs := ParseLines(lines).value;
    FiguresKeys(pairs, n);
    assert forall i :: 0 <= i < |lines| ==> ParseLine(lines[i]).value == pairs[i];
  }
}
