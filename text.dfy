/** Character-level helpers: Python's `str.split()` with no separator, the
    `split('.')[0]` of a file name, `endswith`, and ASCII `upper`/`lower`. */
module Text {

  /** The characters Python's `str.isspace()` accepts, which are the ones
      `str.split()` with no argument splits on. */
  predicate IsSpace(c: char) {
    || ('\t' <= c <= '\r')
    || ('\U{1C}' <= c <= '\U{1F}')
    || c == ' ' || c == '\U{85}' || c == '\U{A0}' || c == '\U{1680}'
    || ('\U{2000}' <= c <= '\U{200A}')
    || c == '\U{2028}' || c == '\U{2029}' || c == '\U{202F}' || c == '\U{205F}' || c == '\U{3000}'
  }

  /** A word: a non-empty run of non-whitespace characters. */
  predicate IsWord(w: string) {
    w != [] && forall i :: 0 <= i < |w| ==> !IsSpace(w[i])
  }

  /** The length of the run of non-whitespace characters that starts `s`. */
  function WordLength(s: string): (n: nat)
    ensures n <= |s|
    ensures forall i :: 0 <= i < n ==> !IsSpace(s[i])
    ensures n < |s| ==> IsSpace(s[n])
  {
    if s == [] || IsSpace(s[0]) then 0 else 1 + WordLength(s[1..])
  }

  /** `s.split()`: the maximal runs of non-whitespace characters of `s`, in order. */
  function Split(s: string): (words: seq<string>)
    ensures forall w :: w in words ==> IsWord(w)
    decreases |s|
  {
    if s == [] then []
    else if IsSpace(s[0]) then Split(s[1..])
    else
      var n := WordLength(s);
      [s[..n]] + Split(s[n..])
  }

  /** `len(s.split())`. */
  function TokenCount(s: string): nat {
    |Split(s)|
  }

  /** The routing threshold of the source: fewer than four tokens. */
  predicate IsShort(s: string) {
    TokenCount(s) < 4
  }

  /** Words joined with one blank between each two. */
  function JoinWords(words: seq<string>): string
    decreases |words|
  {
    if words == [] then ""
    else if |words| == 1 then words[0]
    else words[0] + " " + JoinWords(words[1..])
  }

  /** The characters of `s` that are not whitespace, in order. */
  function NonSpace(s: string): string
    decreases |s|
  {
    if s == [] then "" else (if IsSpace(s[0]) then "" else [s[0]]) + NonSpace(s[1..])
  }

  function Concat(words: seq<string>): string
    decreases |words|
  {
    if words == [] then "" else words[0] + Concat(words[1..])
  }

  lemma {:induction false} WordLengthOfWord(w: string, rest: string)
    requires IsWord(w)
    requires rest == [] || IsSpace(rest[0])
    ensures WordLength(w + rest) == |w|
    decreases |w|
  {
    var s := w + rest;
    assert s[0] == w[0];
    if |w| > 1 {
      assert IsWord(w[1..]);
      assert s[1..] == w[1..] + rest;
      WordLengthOfWord(w[1..], rest);
    } else {
      assert s[1..] == rest;
    }
  }

  lemma {:induction false} NonSpaceConcat(a: string, b: string)
    ensures NonSpace(a + b) == NonSpace(a) + NonSpace(b)
    decreases |a|
  {
    if a == [] {
      assert a + b == b;
    } else {
      assert (a + b)[0] == a[0];
      assert (a + b)[1..] == a[1..] + b;
      NonSpaceConcat(a[1..], b);
    }
  }

  lemma {:induction false} NonSpaceOfWord(w: string)
    requires forall i :: 0 <= i < |w| ==> !IsSpace(w[i])
    ensures NonSpace(w) == w
    decreases |w|
  {
    if w != [] {
      NonSpaceOfWord(w[1..]);
    }
  }

  /** Splitting loses exactly the whitespace: the words, put back together,
      are the non-whitespace characters of the text in their order. */
  lemma {:induction false} SplitKeepsNonSpace(s: string)
    ensures Concat(Split(s)) == NonSpace(s)
    decreases |s|
  {
    if s == [] {
    } else if IsSpace(s[0]) {
      SplitKeepsNonSpace(s[1..]);
    } else {
      var n := WordLength(s);
      assert s == s[..n] + s[n..];
      SplitKeepsNonSpace(s[n..]);
      NonSpaceConcat(s[..n], s[n..]);
      NonSpaceOfWord(s[..n]);
      assert Split(s) == [s[..n]] + Split(s[n..]);
      assert Concat(Split(s)) == s[..n] + Concat(Split(s[n..]));
    }
  }

  /** Splitting words joined by blanks gives back those words. */
  lemma {:induction false} SplitJoin(words: seq<string>)
    requires forall w :: w in words ==> IsWord(w)
    ensures Split(JoinWords(words)) == words
    decreases |words|
  {
    if words == [] {
    } else if |words| == 1 {
      var w := words[0];
      WordLengthOfWord(w, "");
      assert w + "" == w;
      assert w[..|w|] == w && w[|w|..] == "";
    } else {
      var w := words[0];
      var rest := " " + JoinWords(words[1..]);
      var s := JoinWords(words);
      assert s == w + rest;
      WordLengthOfWord(w, rest);
      assert s[0] == w[0];
      assert s[..|w|] == w;
      assert s[|w|..] == rest;
      assert rest[1..] == JoinWords(words[1..]);
      SplitJoin(words[1..]);
      assert Split(rest) == Split(rest[1..]);
    }
  }

  /** The run that starts `a + b` is the one that starts `a`, unless that
      run is all of `a`, where it goes on into `b`. */
  lemma {:induction false} WordLengthAppend(a: string, b: string)
    ensures WordLength(a + b) == if WordLength(a) < |a| then WordLength(a) else |a| + WordLength(b)
    decreases |a|
  {
    if a == [] {
      assert a + b == b;
    } else {
      assert (a + b)[0] == a[0];
      if !IsSpace(a[0]) {
        assert (a + b)[1..] == a[1..] + b;
        WordLengthAppend(a[1..], b);
      }
    }
  }

  /** A word splits into itself. */
  lemma SplitWord(w: string)
    requires IsWord(w)
    ensures Split(w) == [w]
  {
    WordLengthOfWord(w, "");
    assert w + "" == w;
    assert w[..|w|] == w && w[|w|..] == "";
  }

  /** A whitespace character separates: the words of `a + [c] + b` are the
      words of `a` followed by the words of `b`. With `Split("") == []` and
      `SplitWord`, this fixes `Split` on every text, so the words are the
      maximal runs of non-whitespace characters. */
  lemma {:induction false} SplitAtSpace(a: string, c: char, b: string)
    requires IsSpace(c)
    ensures Split(a + [c] + b) == Split(a) + Split(b)
    decreases |a|
  {
    var s := a + [c] + b;
    if a == [] {
      assert s == [c] + b && s[0] == c && s[1..] == b;
    } else if IsSpace(a[0]) {
      assert s[0] == a[0];
      assert s[1..] == a[1..] + [c] + b;
      SplitAtSpace(a[1..], c, b);
    } else {
      assert s[0] == a[0];
      var m := WordLength(a);
      WordLengthAppend(a, [c] + b);
      assert s == a + ([c] + b);
      assert ([c] + b)[0] == c;
      var n := WordLength(s);
      assert n == m;
      if m < |a| {
        assert s[..n] == a[..m];
        assert s[n..] == a[m..] + [c] + b;
        SplitAtSpace(a[m..], c, b);
      } else {
        assert a[..m] == a && a[m..] == [];
        assert s[..n] == a;
        assert s[n..] == [c] + b;
        assert s[n..][1..] == b;
      }
    }
  }

  /** The source's threshold on two concrete texts. */
  lemma ShortExample()
    ensures TokenCount("hello world") == 2
  {
    var ws := ["hello", "world"];
    assert IsWord(ws[0]) && IsWord(ws[1]);
    assert JoinWords(ws[1..]) == "world";
    assert JoinWords(ws) == "hello world";
    SplitJoin(ws);
  }

  lemma LongExample()
    ensures TokenCount("the quick brown fox") == 4
  {
    var ws := ["the", "quick", "brown", "fox"];
    assert IsWord(ws[0]) && IsWord(ws[1]) && IsWord(ws[2]) && IsWord(ws[3]);
    assert JoinWords(ws[3..]) == "fox";
    assert JoinWords(ws[2..]) == "brown fox";
    assert JoinWords(ws[1..]) == "quick brown fox";
    assert JoinWords(ws) == "the quick brown fox";
    SplitJoin(ws);
  }

  /** `s.split('.')[0]`: everything before the first dot, or all of `s`. */
  function FirstDotPart(s: string): (r: string)
    ensures r <= s
    ensures '.' !in r
    ensures |r| < |s| ==> s[|r|] == '.'
  {
    if s == [] || s[0] == '.' then [] else [s[0]] + FirstDotPart(s[1..])
  }

  /** Once `a` holds a dot, what follows `a` does not matter. */
  lemma {:induction false} FirstDotPartAppend(a: string, b: string)
    requires '.' in a
    ensures FirstDotPart(a + b) == FirstDotPart(a)
    decreases |a|
  {
    assert (a + b)[0] == a[0];
    if a[0] != '.' {
      assert '.' in a[1..];
      assert (a + b)[1..] == a[1..] + b;
      FirstDotPartAppend(a[1..], b);
    }
  }

  predicate EndsWith(s: string, suffix: string) {
    |suffix| <= |s| && s[|s| - |suffix|..] == suffix
  }

  function UpperChar(c: char): char {
    if 'a' <= c <= 'z' then (c as int - 32) as char else c
  }

  function LowerChar(c: char): char {
    if 'A' <= c <= 'Z' then (c as int + 32) as char else c
  }

  /** `s.upper()` on the ASCII letters. */
  function Upper(s: string): string {
    seq(|s|, i requires 0 <= i < |s| => UpperChar(s[i]))
  }

  /** `s.lower()` on the ASCII letters. */
  function Lower(s: string): string {
    seq(|s|, i requires 0 <= i < |s| => LowerChar(s[i]))
  }

  /** Appending the same suffix to two different names gives two different names. */
  lemma SuffixCancels(a: string, b: string, suffix: string)
    requires a + suffix == b + suffix
    ensures a == b
  {
    assert |a| == |b|;
    assert a == (a + suffix)[..|a|];
    assert b == (b + suffix)[..|b|];
  }
}
