/** Python's comparison of `str` values: lexicographic by code point, a proper
    prefix sorting first. */
module Ordering {

  predicate StrLe(a: string, b: string)
    decreases |a|
  {
    |a| == 0 || (|b| > 0 && (a[0] < b[0] || (a[0] == b[0] && StrLe(a[1..], b[1..]))))
  }

  /** Python's `a < b` on strings. */
  predicate StrLt(a: string, b: string)
  {
    StrLe(a, b) && a != b
  }

  lemma {:induction false} StrLeRefl(a: string)
    ensures StrLe(a, a)
  {
    if |a| > 0 {
      StrLeRefl(a[1..]);
    }
  }

  lemma {:induction false} StrLeTotal(a: string, b: string)
    ensures StrLe(a, b) || StrLe(b, a)
    decreases |a|
  {
    if |a| > 0 && |b| > 0 && a[0] == b[0] {
      StrLeTotal(a[1..], b[1..]);
    }
  }

  lemma {:induction false} StrLeTrans(a: string, b: string, c: string)
    requires StrLe(a, b) && StrLe(b, c)
    ensures StrLe(a, c)
    decreases |a|
  {
    if |a| > 0 && a[0] == b[0] && b[0] == c[0] {
      StrLeTrans(a[1..], b[1..], c[1..]);
    }
  }

  lemma {:induction false} StrLeAntisym(a: string, b: string)
    requires StrLe(a, b) && StrLe(b, a)
    ensures a == b
    decreases |a|
  {
    if |a| > 0 {
      StrLeAntisym(a[1..], b[1..]);
      assert a == [a[0]] + a[1..] && b == [b[0]] + b[1..];
    }
  }

  /** Comparing two equal-length strings that each get one more character:
      the prefixes decide unless they are equal. */
  lemma {:induction false} StrLeSnoc(a: string, x: char, b: string, y: char)
    requires |a| == |b|
    ensures StrLe(a + [x], b + [y]) <==> StrLt(a, b) || (a == b && x <= y)
    decreases |a|
  {
    if |a| == 0 {
      assert a + [x] == [x] && b + [y] == [y];
      assert [x][1..] == [] && [y][1..] == [];
    } else {
      assert (a + [x])[1..] == a[1..] + [x];
      assert (b + [y])[1..] == b[1..] + [y];
      StrLeSnoc(a[1..], x, b[1..], y);
      if a[0] == b[0] && a[1..] == b[1..] {
        assert a == [a[0]] + a[1..] && b == [b[0]] + b[1..];
      }
      if a == b {
        assert a[1..] == b[1..];
      }
    }
  }
}
