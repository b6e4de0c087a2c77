/** The Python `str` operations the loaders rely on, over `string` (a sequence of
    Unicode code points): `strip()`, `strip(chars)`, substring search (`in`,
    and `Series.str.contains` with a pattern free of regular-expression
    metacharacters), `replace(old, new)` for a one-character `old`, and the
    slice `s[n:]`. */
module Text {

  /** The code points Python's `str.isspace()` accepts, which is the set
      `str.strip()` with no argument removes. */
  predicate IsSpace(c: char) {
    || ('\t' <= c <= '\r')
    || ('\U{1C}' <= c <= ' ')
    || c == '\U{85}' || c == '\U{A0}' || c == '\U{1680}'
    || ('\U{2000}' <= c <= '\U{200A}')
    || c == '\U{2028}' || c == '\U{2029}' || c == '\U{202F}' || c == '\U{205F}'
    || c == '\U{3000}'
  }

  predicate IsQuote(c: char) {
    c == '"'
  }

  /** `s` with every leading character satisfying `p` removed. */
  function TrimLeft(s: string, p: char -> bool): (r: string)
    ensures |r| <= |s| && r == s[|s| - |r|..]
    ensures forall k :: 0 <= k < |s| - |r| ==> p(s[k])
    ensures |r| > 0 ==> !p(r[0])
  {
    if |s| == 0 || !p(s[0]) then s else TrimLeft(s[1..], p)
  }

  /** `s` with every trailing character satisfying `p` removed. */
  function TrimRight(s: string, p: char -> bool): (r: string)
    ensures |r| <= |s| && r == s[..|r|]
    ensures forall k :: |r| <= k < |s| ==> p(s[k])
    ensures |r| > 0 ==> !p(r[|r| - 1])
  {
    if |s| == 0 || !p(s[|s| - 1]) then s else TrimRight(s[..|s| - 1], p)
  }

  /** Python's `s.strip(chars)` where `p` tells the characters in `chars`. */
  function StripWhere(s: string, p: char -> bool): (r: string)
    ensures |r| > 0 ==> !p(r[0]) && !p(r[|r| - 1])
    ensures exists i :: OccursAt(s, r, i)
  {
    var l := TrimLeft(s, p);
    var r := TrimRight(l, p);
    assert OccursAt(s, r, |s| - |l|);
    r
  }

  /** Python's `s.strip()`. */
  function Strip(s: string): string {
    StripWhere(s, IsSpace)
  }

  /** Python's `s.strip("\"")`. */
  function StripQuotes(s: string): string {
    StripWhere(s, IsQuote)
  }

  /** Characters satisfying `p` in front of `s` do not change the left trim. */
  lemma {:induction false} TrimLeftPadding(a: string, s: string, p: char -> bool)
    requires forall k :: 0 <= k < |a| ==> p(a[k])
    ensures TrimLeft(a + s, p) == TrimLeft(s, p)
    decreases |a|
  {
    if |a| > 0 {
      assert (a + s)[1..] == a[1..] + s;
      TrimLeftPadding(a[1..], s, p);
    } else {
      assert a + s == s;
    }
  }

  /** Characters satisfying `p` after `s` do not change the right trim. */
  lemma {:induction false} TrimRightPadding(s: string, b: string, p: char -> bool)
    requires forall k :: 0 <= k < |b| ==> p(b[k])
    ensures TrimRight(s + b, p) == TrimRight(s, p)
    decreases |b|
  {
    if |b| > 0 {
      var b' := b[..|b| - 1];
      assert (s + b)[..|s + b| - 1] == s + b';
      TrimRightPadding(s, b', p);
    } else {
      assert s + b == s;
    }
  }

  /** Left trimming a string with a kept character in it commutes with appending. */
  lemma {:induction false} TrimLeftAppend(s: string, b: string, p: char -> bool)
    requires exists k :: 0 <= k < |s| && !p(s[k])
    ensures TrimLeft(s + b, p) == TrimLeft(s, p) + b
    decreases |s|
  {
    if p(s[0]) {
      assert (s + b)[1..] == s[1..] + b;
      var k :| 0 <= k < |s| && !p(s[k]);
      assert !p(s[1..][k - 1]);
      TrimLeftAppend(s[1..], b, p);
    }
  }

  /** A string made only of characters satisfying `p` trims away entirely. */
  lemma {:induction false} TrimLeftAll(s: string, p: char -> bool)
    requires forall k :: 0 <= k < |s| ==> p(s[k])
    ensures TrimLeft(s, p) == []
    decreases |s|
  {
    if |s| > 0 {
      TrimLeftAll(s[1..], p);
    }
  }

  /** Stripping ignores any padding made of stripped characters on either side. */
  lemma StripPadding(a: string, s: string, b: string, p: char -> bool)
    requires forall k :: 0 <= k < |a| ==> p(a[k])
    requires forall k :: 0 <= k < |b| ==> p(b[k])
    ensures StripWhere(a + s + b, p) == StripWhere(s, p)
  {
    assert a + s + b == a + (s + b);
    TrimLeftPadding(a, s + b, p);
    if exists k :: 0 <= k < |s| && !p(s[k]) {
      StripRightPadding(s, b, p);
    } else {
      StripAllPadding(s, b, p);
    }
  }

  lemma StripRightPadding(s: string, b: string, p: char -> bool)
    requires exists k :: 0 <= k < |s| && !p(s[k])
    requires forall k :: 0 <= k < |b| ==> p(b[k])
    ensures TrimRight(TrimLeft(s + b, p), p) == TrimRight(TrimLeft(s, p), p)
  {
    TrimLeftAppend(s, b, p);
    TrimRightPadding(TrimLeft(s, p), b, p);
  }

  lemma StripAllPadding(s: string, b: string, p: char -> bool)
    requires forall k :: 0 <= k < |s| ==> p(s[k])
    requires forall k :: 0 <= k < |b| ==> p(b[k])
    ensures TrimLeft(s + b, p) == [] && TrimLeft(s, p) == []
  {
    TrimLeftAll(s, p);
    TrimLeftAll(s + b, p);
  }

  /** Stripping is idempotent. */
  lemma StripIdempotent(s: string, p: char -> bool)
    ensures StripWhere(StripWhere(s, p), p) == StripWhere(s, p)
  {
    var r := StripWhere(s, p);
    if |r| > 0 {
      assert TrimLeft(r, p) == r;
      assert TrimRight(r, p) == r;
    }
  }

  /** `sub` occurs in `s` starting at position `i`. */
  predicate OccursAt(s: string, sub: string, i: int) {
    0 <= i && i + |sub| <= |s| && s[i..i + |sub|] == sub
  }

  /** `s` begins with `prefix`. */
  predicate StartsWith(s: string, prefix: string) {
    |prefix| <= |s| && s[..|prefix|] == prefix
  }

  /** Python's `sub in s`: `sub` occurs in `s` as a contiguous block. */
  predicate Contains(s: string, sub: string)
    decreases |s|
  {
    StartsWith(s, sub) || (|s| > 0 && Contains(s[1..], sub))
  }

  /** `Contains` holds exactly when `sub` occurs at some position of `s`. */
  lemma {:induction false} ContainsAt(s: string, sub: string)
    ensures Contains(s, sub) <==> exists i :: OccursAt(s, sub, i)
    decreases |s|
  {
    if StartsWith(s, sub) {
      assert OccursAt(s, sub, 0);
    }
    if |s| > 0 {
      ContainsAt(s[1..], sub);
      if exists i :: OccursAt(s, sub, i) {
        var i :| OccursAt(s, sub, i);
        if i > 0 {
          assert OccursAt(s[1..], sub, i - 1);
        }
      }
      if Contains(s[1..], sub) {
        var i :| OccursAt(s[1..], sub, i);
        assert OccursAt(s, sub, i + 1);
      }
    } else if exists i :: OccursAt(s, sub, i) {
      var i :| OccursAt(s, sub, i);
      assert |sub| == 0;
    }
  }

  /** Python's `s.replace(c, rep)` for a one-character `c`: every occurrence of
      `c` is replaced by `rep`. */
  function ReplaceChar(s: string, c: char, rep: string): (r: string)
    ensures c !in rep ==> c !in r
    ensures forall x :: x in r ==> x in s || x in rep
    ensures c !in s ==> r == s
  {
    if |s| == 0 then []
    else (if s[0] == c then rep else [s[0]]) + ReplaceChar(s[1..], c, rep)
  }

  /** Replacing distributes over concatenation: a string is rewritten piece by
      piece, each `c` becoming `rep` and every other character staying. */
  lemma {:induction false} ReplaceCharConcat(a: string, b: string, c: char, rep: string)
    ensures ReplaceChar(a + b, c, rep) == ReplaceChar(a, c, rep) + ReplaceChar(b, c, rep)
    ensures ReplaceChar([c], c, rep) == rep
    ensures forall x :: x != c ==> ReplaceChar([x], c, rep) == [x]
    decreases |a|
  {
    if |a| > 0 {
      assert (a + b)[1..] == a[1..] + b;
      ReplaceCharConcat(a[1..], b, c, rep);
    } else {
      assert a + b == b;
    }
  }

  /** Python's slice `s[n:]`, which is empty when `s` is shorter than `n`. */
  function DropPrefix(s: string, n: nat): (r: string)
    ensures |s| <= n ==> r == []
    ensures n <= |s| ==> |r| == |s| - n && s == s[..n] + r
  {
    if |s| <= n then [] else s[n..]
  }
}
