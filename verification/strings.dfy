/** The Python `str` methods the modelled code relies on, over `string = seq<char>`. */
module Strings {
  import opened Results

  /** Python's whitespace, as used by `str.split()`, `str.strip()` and `str.isspace()`. */
  predicate IsSpace(c: char)
  {
    || c == ' '
    || '\t' <= c <= '\r'
    || '\U{1c}' <= c <= '\U{1f}'
    || c == '\U{85}' || c == '\U{a0}' || c == '\U{1680}'
    || '\U{2000}' <= c <= '\U{200a}'
    || c == '\U{2028}' || c == '\U{2029}' || c == '\U{202f}' || c == '\U{205f}' || c == '\U{3000}'
  }

  /** A token produced by `str.split()`: non-empty and free of whitespace. */
  predicate IsWord(w: string)
  {
    |w| > 0 && forall i :: 0 <= i < |w| ==> !IsSpace(w[i])
  }

  predicate AllSpace(s: string)
  {
    forall i :: 0 <= i < |s| ==> IsSpace(s[i])
  }

  /** Length of the longest whitespace-free prefix of `s`. */
  function WordLen(s: string): (n: nat)
    ensures n <= |s|
    ensures forall i :: 0 <= i < n ==> !IsSpace(s[i])
    ensures n < |s| ==> IsSpace(s[n])
  {
    if |s| == 0 || IsSpace(s[0]) then 0 else 1 + WordLen(s[1..])
  }

  /** Python's `s.split()`: the maximal runs of non-whitespace characters, in order. */
  function Split(s: string): (words: seq<string>)
    ensures forall i :: 0 <= i < |words| ==> IsWord(words[i])
    ensures |words| == 0 <==> AllSpace(s)
    decreases |s|
  {
    if |s| == 0 then []
    else if IsSpace(s[0]) then
      var r := Split(s[1..]);
      assert AllSpace(s) <==> AllSpace(s[1..]) by {
        if AllSpace(s[1..]) {
          forall i | 0 <= i < |s| ensures IsSpace(s[i]) {
            if i > 0 { assert s[i] == s[1..][i - 1]; }
          }
        }
      }
      r
    else
      var n := WordLen(s);
      [s[..n]] + Split(s[n..])
  }

  /** Python's `sep.join(parts)`. */
  function Join(sep: string, parts: seq<string>): string
  {
    if |parts| == 0 then ""
    else if |parts| == 1 then parts[0]
    else parts[0] + sep + Join(sep, parts[1..])
  }

  lemma {:induction false} WordLenOfWord(w: string, t: string)
    requires IsWord(w)
    requires t == [] || IsSpace(t[0])
    ensures WordLen(w + t) == |w|
    decreases |w|
  {
    var s := w + t;
    assert s[0] == w[0] && !IsSpace(w[0]);
    assert s[1..] == w[1..] + t;
    if |w| == 1 {
      assert WordLen(t) == 0;
    } else {
      assert IsWord(w[1..]);
      WordLenOfWord(w[1..], t);
    }
  }

  lemma SplitAfterWord(w: string, t: string)
    requires IsWord(w)
    requires t == [] || IsSpace(t[0])
    ensures Split(w + t) == [w] + Split(t)
  {
    WordLenOfWord(w, t);
    assert (w + t)[..|w|] == w;
    assert (w + t)[|w|..] == t;
  }

  lemma SplitAfterSpace(t: string)
    ensures Split(" " + t) == Split(t)
  {
    assert (" " + t)[1..] == t;
  }

  /** Joining whitespace-free tokens with single spaces and splitting again gives
      the tokens back. */
  lemma {:induction false} SplitJoin(words: seq<string>)
    requires forall i :: 0 <= i < |words| ==> IsWord(words[i])
    ensures Split(Join(" ", words)) == words
  {
    if |words| == 1 {
      SplitAfterWord(words[0], "");
      assert words[0] + "" == words[0];
    } else if |words| > 1 {
      var w := words[0];
      var rest := Join(" ", words[1..]);
      calc {
        Split(Join(" ", words));
        { assert Join(" ", words) == w + (" " + rest); }
        Split(w + (" " + rest));
        { SplitAfterWord(w, " " + rest); }
        [w] + Split(" " + rest);
        { SplitAfterSpace(rest); }
        [w] + Split(rest);
        { SplitJoin(words[1..]); }
        [w] + words[1..];
      }
      assert words == [w] + words[1..];
    }
  }

  /** Tokenising is stable: re-joining the tokens and splitting again changes nothing. */
  lemma SplitIdempotent(s: string)
    ensures Split(Join(" ", Split(s))) == Split(s)
  {
    SplitJoin(Split(s));
  }

  /** `pat` occurs in `s` starting at index `i`. */
  predicate OccursAt(s: string, pat: string, i: nat)
  {
    i + |pat| <= |s| && s[i..i + |pat|] == pat
  }

  predicate Contains(s: string, pat: string)
  {
    exists i: nat | i <= |s| :: OccursAt(s, pat, i)
  }

  /** First occurrence of `pat` in `s` at or after `start` (Python's `s.find(pat, start)`). */
  function FindFrom(s: string, pat: string, start: nat): (r: Option<nat>)
    requires start <= |s|
    ensures r.Some? ==> start <= r.value && OccursAt(s, pat, r.value)
    ensures r.Some? ==> forall j :: start <= j < r.value ==> !OccursAt(s, pat, j)
    ensures r.None? ==> forall j :: start <= j ==> !OccursAt(s, pat, j)
    decreases |s| - start
  {
    if OccursAt(s, pat, start) then Some(start)
    else if start == |s| then None
    else FindFrom(s, pat, start + 1)
  }

  /** A one-character pattern occurs exactly when the character does. */
  lemma ContainsChar(t: string, c: char)
    ensures Contains(t, [c]) <==> c in t
  {
    if c in t {
      var j :| 0 <= j < |t| && t[j] == c;
      assert t[j..j + 1] == [c];
      assert OccursAt(t, [c], j);
    }
    if Contains(t, [c]) {
      var i: nat :| i <= |t| && OccursAt(t, [c], i);
      assert t[i..i + 1][0] == t[i];
    }
  }

  /** An occurrence inside a prefix is an occurrence in the whole string. */
  lemma PrefixOccurs(s: string, n: nat, pat: string, j: nat)
    requires j + |pat| <= n <= |s|
    ensures OccursAt(s[..n], pat, j) <==> OccursAt(s, pat, j)
  {
    assert s[..n][j..j + |pat|] == s[j..j + |pat|];
  }

  /** Python's `s.split(sep)` for a non-empty separator: the pieces between the
      leftmost non-overlapping occurrences of `sep`. */
  function SplitOn(s: string, sep: string): (parts: seq<string>)
    requires |sep| > 0
    ensures |parts| >= 1
    ensures Join(sep, parts) == s
    ensures forall k :: 0 <= k < |parts| ==> !Contains(parts[k], sep)
    decreases |s|
  {
    match FindFrom(s, sep, 0)
    case None =>
      assert !Contains(s, sep);
      [s]
    case Some(i) =>
      var head := s[..i];
      var rest := SplitOn(s[i + |sep|..], sep);
      assert !Contains(head, sep) by {
        forall j: nat | j + |sep| <= i ensures !OccursAt(head, sep, j) {
          PrefixOccurs(s, i, sep, j);
        }
      }
      assert s == head + sep + s[i + |sep|..] by {
        assert s[i..i + |sep|] == sep;
        assert s == s[..i] + s[i..i + |sep|] + s[i + |sep|..];
      }
      [head] + rest
  }

  /** Splitting on a one-character separator undoes joining with it, when no
      piece contains that character. */
  lemma {:induction false} SplitOnJoin(c: char, parts: seq<string>)
    requires |parts| >= 1
    requires forall k :: 0 <= k < |parts| ==> c !in parts[k]
    ensures SplitOn(Join([c], parts), [c]) == parts
  {
    var p := parts[0];
    if |parts| == 1 {
      SplitOnAbsent(p, c);
    } else {
      var s := Join([c], parts);
      var rest := Join([c], parts[1..]);
      assert s == p + [c] + rest;
      forall j | 0 <= j < |p| ensures !OccursAt(s, [c], j) {
        assert s[j..j + 1] == [p[j]];
      }
      assert s[|p|..|p| + 1] == [c];
      FindFromFirst(s, [c], 0, |p|);
      SplitOnStep(s, [c], |p|);
      assert s[..|p|] == p;
      assert s[|p| + 1..] == rest;
      SplitOnJoin(c, parts[1..]);
      assert parts == [p] + parts[1..];
    }
  }


  /** `s.split(sep)` has a second piece exactly when `sep` occurs in `s`. */
  lemma SplitOnFound(s: string, sep: string)
    requires |sep| > 0
    ensures |SplitOn(s, sep)| >= 2 <==> Contains(s, sep)
  {
    match FindFrom(s, sep, 0)
    case None =>
      assert SplitOn(s, sep) == [s];
    case Some(i) =>
      assert OccursAt(s, sep, i);
  }

  /** `s.count(c)` for a single character. */
  function CountChar(s: string, c: char): (n: nat)
    ensures n <= |s|
    ensures n == 0 <==> c !in s
  {
    if |s| == 0 then 0 else (if s[0] == c then 1 else 0) + CountChar(s[1..], c)
  }

  lemma {:induction false} CountCharAppend(a: string, b: string, c: char)
    ensures CountChar(a + b, c) == CountChar(a, c) + CountChar(b, c)
  {
    if |a| > 0 {
      assert (a + b)[1..] == a[1..] + b;
      CountCharAppend(a[1..], b, c);
    } else {
      assert a + b == b;
    }
  }

  /** `s.index(c)`: the first position of `c`. */
  function IndexOf(s: string, c: char): (k: nat)
    requires c in s
    ensures k < |s| && s[k] == c && c !in s[..k]
  {
    if s[0] == c then 0
    else
      var k := 1 + IndexOf(s[1..], c);
      assert s[..k] == [s[0]] + s[1..][..k - 1];
      k
  }

  /** Splitting on a character yields one more piece than it has occurrences. */
  lemma {:induction false} SplitOnCount(s: string, c: char)
    ensures |SplitOn(s, [c])| == CountChar(s, c) + 1
    decreases |s|
  {
    match FindFrom(s, [c], 0)
    case None =>
      assert c !in s by {
        forall j | 0 <= j < |s| ensures s[j] != c {
          assert !OccursAt(s, [c], j);
          assert s[j..j + 1] == [s[j]];
        }
      }
    case Some(i) =>
      assert s[i..i + 1] == [c];
      assert c !in s[..i] by {
        forall j | 0 <= j < i ensures s[j] != c {
          assert !OccursAt(s, [c], j);
          assert s[j..j + 1] == [s[j]];
        }
      }
      assert s == s[..i] + [c] + s[i + 1..];
      CountCharAppend(s[..i] + [c], s[i + 1..], c);
      CountCharAppend(s[..i], [c], c);
      SplitOnCount(s[i + 1..], c);
  }

  /** One step of `SplitOn` at the first occurrence. */
  lemma SplitOnStep(s: string, sep: string, i: nat)
    requires |sep| > 0 && FindFrom(s, sep, 0) == Some(i)
    ensures SplitOn(s, sep) == [s[..i]] + SplitOn(s[i + |sep|..], sep)
  {
  }

  /** A string without `c` splits on it into itself. */
  lemma SplitOnAbsent(s: string, c: char)
    requires c !in s
    ensures SplitOn(s, [c]) == [s]
  {
    SplitOnCount(s, c);
    var parts := SplitOn(s, [c]);
    assert Join([c], parts) == parts[0];
  }

  /** The first occurrence of a character, as `FindFrom` finds it. */
  lemma FindFromIndexOf(s: string, c: char)
    requires c in s
    ensures FindFrom(s, [c], 0) == Some(IndexOf(s, c))
  {
    var k := IndexOf(s, c);
    forall j | 0 <= j < k ensures !OccursAt(s, [c], j) {
      assert s[j..j + 1] == [s[j]];
      assert s[..k][j] == s[j];
    }
    assert s[k..k + 1] == [c];
    FindFromFirst(s, [c], 0, k);
  }

  /** With exactly one occurrence of `c`, `s.split(c)` is the text before it and the
      text after it. */
  lemma SplitOnOne(s: string, c: char)
    requires CountChar(s, c) == 1
    ensures SplitOn(s, [c]) == [s[..IndexOf(s, c)], s[IndexOf(s, c) + 1..]]
  {
    var k := IndexOf(s, c);
    CountAround(s, k, c);
    var after := s[k + 1..];
    assert c !in after;
    FindFromIndexOf(s, c);
    SplitOnStep(s, [c], k);
    SplitOnAbsent(after, c);
  }

  /** The occurrences of `c` on either side of one at position `k`. */
  lemma CountAround(s: string, k: nat, c: char)
    requires k < |s| && s[k] == c
    ensures CountChar(s, c) == CountChar(s[..k], c) + 1 + CountChar(s[k + 1..], c)
  {
    assert s == (s[..k] + [c]) + s[k + 1..];
    CountCharAppend(s[..k] + [c], s[k + 1..], c);
    CountCharAppend(s[..k], [c], c);
  }

  /** `FindFrom` returns the first occurrence at or after `start`. */
  lemma {:induction false} FindFromFirst(s: string, pat: string, start: nat, k: nat)
    requires start <= k <= |s| && OccursAt(s, pat, k)
    requires forall j :: start <= j < k ==> !OccursAt(s, pat, j)
    ensures FindFrom(s, pat, start) == Some(k)
    decreases k - start
  {
    if start < k {
      FindFromFirst(s, pat, start + 1, k);
    }
  }

  /** Python's `s.rstrip(chars)`: drops the longest suffix made of characters in `chars`. */
  function RStrip(s: string, chars: set<char>): (r: string)
    ensures |r| <= |s| && r == s[..|r|]
    ensures |r| > 0 ==> r[|r| - 1] !in chars
    ensures forall i :: |r| <= i < |s| ==> s[i] in chars
  {
    if |s| == 0 || s[|s| - 1] !in chars then s
    else RStrip(s[..|s| - 1], chars)
  }

  /** Stripping twice strips nothing more. */
  lemma RStripIdempotent(s: string, chars: set<char>)
    ensures RStrip(RStrip(s, chars), chars) == RStrip(s, chars)
  {
  }

  /** Python's `s.lstrip()`: drops the longest whitespace prefix. */
  function LStripSpace(s: string): (r: string)
    ensures |r| <= |s| && r == s[|s| - |r|..]
    ensures |r| > 0 ==> !IsSpace(r[0])
    ensures forall i :: 0 <= i < |s| - |r| ==> IsSpace(s[i])
  {
    if |s| == 0 || !IsSpace(s[0]) then s
    else LStripSpace(s[1..])
  }

  /** Python's `s.strip()`: whitespace removed at both ends. The result is the part
      of `s` between a leading and a trailing run of whitespace, and both runs are
      maximal since the result neither starts nor ends with whitespace. */
  function Strip(s: string): (r: string)
    ensures |r| <= |s|
    ensures |r| > 0 ==> !IsSpace(r[0]) && !IsSpace(r[|r| - 1])
    ensures exists i, j :: 0 <= i <= j <= |s| && r == s[i..j] && AllSpace(s[..i]) && AllSpace(s[j..])
  {
    var t := RStrip(s, set c | IsSpace(c));
    StripParts(s, t);
    LStripSpace(t)
  }

  /** The two runs `Strip` removes, around what it keeps. */
  lemma StripParts(s: string, t: string)
    requires |t| <= |s| && t == s[..|t|]
    requires forall i :: |t| <= i < |s| ==> s[i] in set c | IsSpace(c)
    ensures var r := LStripSpace(t);
      r == s[|t| - |r|..|t|] && AllSpace(s[..|t| - |r|]) && AllSpace(s[|t|..])
  {
    var r := LStripSpace(t);
    SpacePrefix(s, t, |t| - |r|);
    SpaceSuffix(s, |t|);
  }

  lemma SpacePrefix(s: string, t: string, i: nat)
    requires i <= |t| <= |s| && t == s[..|t|]
    requires forall k :: 0 <= k < i ==> IsSpace(t[k])
    ensures AllSpace(s[..i])
  {
    assert forall k :: 0 <= k < i ==> s[..i][k] == t[k];
  }

  lemma SpaceSuffix(s: string, n: nat)
    requires n <= |s|
    requires forall i :: n <= i < |s| ==> s[i] in set c | IsSpace(c)
    ensures AllSpace(s[n..])
  {
    assert forall k :: 0 <= k < |s| - n ==> s[n..][k] == s[n + k];
  }

  /** Stripping text that is already free of whitespace at its ends keeps it whole. */
  lemma StripUnpadded(s: string)
    requires |s| > 0 ==> !IsSpace(s[0]) && !IsSpace(s[|s| - 1])
    ensures Strip(s) == s
  {
  }

  /** Python's `s.lower()` on ASCII letters; other characters are kept. */
  function Lower(s: string): (r: string)
    ensures |r| == |s|
    ensures forall i :: 0 <= i < |s| ==> !('A' <= r[i] <= 'Z')
  {
    seq(|s|, i requires 0 <= i < |s| =>
      if 'A' <= s[i] <= 'Z' then (s[i] as int + 32) as char else s[i])
  }

  /** Python's `s.replace(pat, "")`: one left-to-right pass removing the
      non-overlapping occurrences of `pat`. */
  function RemoveAll(s: string, pat: string): (r: string)
    requires |pat| > 0
    ensures |r| <= |s|
    ensures !Contains(s, pat) ==> r == s
    decreases |s|
  {
    if |s| == 0 then s
    else if OccursAt(s, pat, 0) then RemoveAll(s[|pat|..], pat)
    else
      var r := [s[0]] + RemoveAll(s[1..], pat);
      assert !Contains(s, pat) ==> !Contains(s[1..], pat) by {
        forall j: nat | OccursAt(s[1..], pat, j) ensures OccursAt(s, pat, j + 1) {
          assert s[1..][j..j + |pat|] == s[j + 1..j + 1 + |pat|];
        }
      }
      r
  }

  /** Line boundaries recognised by Python's `str.splitlines()`. */
  predicate IsLineBreak(c: char)
  {
    || c == '\n' || c == '\r' || c == '\U{0b}' || c == '\U{0c}'
    || '\U{1c}' <= c <= '\U{1e}' || c == '\U{85}' || c == '\U{2028}' || c == '\U{2029}'
  }

  /** Index of the first line boundary in `s`, or `|s|`. */
  function LineEnd(s: string): (n: nat)
    ensures n <= |s|
    ensures forall i :: 0 <= i < n ==> !IsLineBreak(s[i])
    ensures n < |s| ==> IsLineBreak(s[n])
  {
    if |s| == 0 || IsLineBreak(s[0]) then 0 else 1 + LineEnd(s[1..])
  }

  /** `s` holds no line boundary. */
  predicate NoLineBreak(s: string)
  {
    forall i :: 0 <= i < |s| ==> !IsLineBreak(s[i])
  }

  /** Python's `s.splitlines()`: lines without their boundaries, `"\r\n"` counting
      as one boundary, and no empty line after a final boundary. */
  function SplitLines(s: string): (lines: seq<string>)
    ensures forall k :: 0 <= k < |lines| ==> NoLineBreak(lines[k])
    ensures |s| == 0 <==> |lines| == 0
    ensures |s| > 0 && NoLineBreak(s) ==> lines == [s]
    decreases |s|
  {
    if |s| == 0 then []
    else
      var n := LineEnd(s);
      if n == |s| then [s]
      else [s[..n]] + SplitLines(s[NextLine(s, n)..])
  }

  /** Where the line after a boundary at `n` starts: `"\r\n"` is one boundary. */
  function NextLine(s: string, n: nat): (next: nat)
    requires n < |s|
    ensures n < next <= |s|
  {
    if s[n] == '\r' && n + 1 < |s| && s[n + 1] == '\n' then n + 2 else n + 1
  }

  /** `sep.join` of a list with at least two items starts with the first item. */
  lemma JoinCons(sep: string, a: string, t: seq<string>)
    requires |t| > 0
    ensures Join(sep, [a] + t) == a + sep + Join(sep, t)
  {
    assert ([a] + t)[1..] == t;
  }

  /** `splitlines()` at a first boundary that is a lone `"\n"`. */
  lemma {:induction false} SplitLinesAtNewline(s: string)
    requires LineEnd(s) < |s| && s[LineEnd(s)] == '\n'
    ensures SplitLines(s) == [s[..LineEnd(s)]] + SplitLines(s[LineEnd(s) + 1..])
  {
    SplitLinesStep(s);
    assert NextLine(s, LineEnd(s)) == LineEnd(s) + 1;
  }

  lemma SplitLinesStep(s: string)
    requires LineEnd(s) < |s|
    ensures SplitLines(s) == [s[..LineEnd(s)]] + SplitLines(s[NextLine(s, LineEnd(s))..])
  {
  }

  /** Text whose only boundaries are `"\n"` and which does not end in one splits into
      lines that `"\n".join` puts back together. */
  lemma {:induction false} SplitLinesJoin(s: string)
    requires forall i :: 0 <= i < |s| && IsLineBreak(s[i]) ==> s[i] == '\n'
    requires |s| > 0 ==> s[|s| - 1] != '\n'
    ensures Join("\n", SplitLines(s)) == s
    decreases |s|
  {
    if |s| > 0 {
      var n := LineEnd(s);
      if n < |s| {
        var rest := s[n + 1..];
        assert s[n] == '\n' && |rest| > 0;
        SplitLinesAtNewline(s);
        assert forall i :: 0 <= i < |rest| ==> rest[i] == s[n + 1 + i];
        SplitLinesJoin(rest);
        JoinCons("\n", s[..n], SplitLines(rest));
        Around(s, n);
        assert [s[n]] == "\n";
      }
    }
  }

  /** A string is its text before, at and after any position. */
  lemma Around(s: string, n: nat)
    requires n < |s|
    ensures s == s[..n] + [s[n]] + s[n + 1..]
  {
  }

  /** The first boundary of `line + "\n" + rest` ends the break-free `line`. */
  lemma LineEndOfJoin(line: string, rest: string)
    requires NoLineBreak(line)
    ensures LineEnd(line + "\n" + rest) == |line|
  {
    var s := line + "\n" + rest;
    assert forall i :: 0 <= i < |line| ==> s[i] == line[i];
    assert IsLineBreak(s[|line|]);
  }

  /** A break-free line followed by `"\n"` comes back as the first line. */
  lemma SplitLinesAfterLine(line: string, rest: string)
    requires NoLineBreak(line)
    ensures SplitLines(line + "\n" + rest) == [line] + SplitLines(rest)
  {
    var s := line + "\n" + rest;
    LineEndOfJoin(line, rest);
    assert s[|line|] == '\n';
    SplitLinesAtNewline(s);
    assert s[|line| + 1..] == rest;
    assert s[..|line|] == line;
  }

  /** Putting a break-free line in front of lines that survive the round trip. */
  lemma JoinSplitLinesCons(lines: seq<string>)
    requires |lines| > 1 && NoLineBreak(lines[0])
    requires SplitLines(Join("\n", lines[1..])) == lines[1..]
    ensures SplitLines(Join("\n", lines)) == lines
  {
    var rest := Join("\n", lines[1..]);
    assert Join("\n", lines) == lines[0] + "\n" + rest;
    SplitLinesAfterLine(lines[0], rest);
    assert [lines[0]] + lines[1..] == lines;
  }

  /** Break-free lines, the last one non-empty, survive `"\n".join` and `splitlines()`. */
  lemma {:induction false} JoinSplitLines(lines: seq<string>)
    requires |lines| > 0 && lines[|lines| - 1] != ""
    requires forall k :: 0 <= k < |lines| ==> NoLineBreak(lines[k])
    ensures SplitLines(Join("\n", lines)) == lines
  {
    if |lines| == 1 {
      assert Join("\n", lines) == lines[0];
    } else {
      JoinSplitLines(lines[1..]);
      JoinSplitLinesCons(lines);
    }
  }

  /** Python's `s.rsplit(c, 1)[0]`: everything before the last `c`, or all of `s`
      when `c` does not occur. */
  function BeforeLast(s: string, c: char): (r: string)
    ensures c !in s ==> r == s
    ensures c in s ==> |r| < |s| && s[|r|] == c && r == s[..|r|] && c !in s[|r| + 1..]
  {
    if c !in s then s
    else if s[|s| - 1] == c then s[..|s| - 1]
    else
      assert c in s[..|s| - 1] by {
        var i :| 0 <= i < |s| && s[i] == c;
        assert s[..|s| - 1][i] == c;
      }
      BeforeLast(s[..|s| - 1], c)
  }
}
