/** The few operations of Python's `str` that the scripts rely on:
    `isspace`, `rstrip()`, `split(sep, 1)` and `split()`. Strings are
    sequences of code points. */
module Text {
  import opened Wrappers

  /** The characters for which `str.isspace()` is true. */
  predicate IsSpace(c: char) {
    var n := c as int;
    n == 0x20 || 0x09 <= n <= 0x0d || 0x1c <= n <= 0x1f || n == 0x85 || n == 0xa0
    || n == 0x1680 || 0x2000 <= n <= 0x200a || n == 0x2028 || n == 0x2029
    || n == 0x202f || n == 0x205f || n == 0x3000
  }

  predicate AllSpace(s: string) {
    forall i :: 0 <= i < |s| ==> IsSpace(s[i])
  }

  predicate NoSpace(s: string) {
    forall i :: 0 <= i < |s| ==> !IsSpace(s[i])
  }

  /** `s.rstrip()`: the unique prefix of `s` that does not end in whitespace
      and leaves only whitespace behind it. */
  function RStrip(s: string): (r: string)
    ensures r <= s
    ensures r == [] || !IsSpace(r[|r| - 1])
    ensures AllSpace(s[|r|..])
  {
    if s != [] && IsSpace(s[|s| - 1]) then
      var r := RStrip(s[..|s| - 1]);
      assert s[|r|..] == s[..|s| - 1][|r|..] + [s[|s| - 1]];
      r
    else
      s
  }

  /** `s.split(sep, 1)` followed by unpacking into two names: None when the
      separator does not occur (the unpacking raises), otherwise the text
      before the first separator and everything after it. */
  function SplitOnce(s: string, sep: char): (r: Option<(string, string)>)
    ensures r.None? <==> sep !in s
    ensures r.Some? ==> s == r.value.0 + [sep] + r.value.1 && sep !in r.value.0
  {
    if s == [] then None
    else if s[0] == sep then Some(([], s[1..]))
    else
      match SplitOnce(s[1..], sep)
      case None => None
      case Some((a, b)) => Some(([s[0]] + a, b))
  }

  /** The non-whitespace characters of `s`, in order. */
  function NonSpace(s: string): string {
    if s == [] then [] else (if IsSpace(s[0]) then [] else [s[0]]) + NonSpace(s[1..])
  }

  function Concat(ws: seq<string>): string {
    if ws == [] then [] else ws[0] + Concat(ws[1..])
  }

  /** The longest prefix of `s` that holds no whitespace. */
  function Word(s: string): (w: string)
    ensures w <= s && NoSpace(w)
    ensures |w| < |s| ==> IsSpace(s[|w|])
  {
    if s == [] || IsSpace(s[0]) then [] else [s[0]] + Word(s[1..])
  }

  /** `s.split()` with no argument: the maximal runs of non-whitespace. */
  function Words(s: string): (ws: seq<string>)
    ensures forall k :: 0 <= k < |ws| ==> ws[k] != [] && NoSpace(ws[k])
    decreases |s|
  {
    if s == [] then []
    else if IsSpace(s[0]) then Words(s[1..])
    else
      var w := Word(s);
      [w] + Words(s[|w|..])
  }

  /** `gaps[0] + words[0] + gaps[1] + ... + words[|words| - 1] + gaps[|words|]`. */
  function Weave(gaps: seq<string>, words: seq<string>): (s: string)
    requires |gaps| == |words| + 1
    decreases |words|
  {
    gaps[0] + (if words == [] then [] else words[0] + Weave(gaps[1..], words[1..]))
  }

  /** `s` is cut into the non-empty whitespace-free `words`, separated by
      the whitespace runs `gaps`: leading and trailing gaps may be empty,
      the gaps between two words may not. */
  predicate CutAt(s: string, words: seq<string>, gaps: seq<string>) {
    && |gaps| == |words| + 1
    && (forall k :: 0 <= k < |gaps| ==> AllSpace(gaps[k]))
    && (forall k :: 0 < k < |words| ==> gaps[k] != [])
    && (forall k :: 0 <= k < |words| ==> words[k] != [] && NoSpace(words[k]))
    && s == Weave(gaps, words)
  }

  /** The words of `s` are its maximal runs of non-whitespace. */
  ghost predicate SplitsInto(s: string, words: seq<string>) {
    exists gaps :: CutAt(s, words, gaps)
  }

  /** The whitespace runs around the words of `s`. */
  function Gaps(s: string): (gaps: seq<string>)
    ensures |gaps| >= 1
    ensures s != [] && IsSpace(s[0]) ==> gaps[0] != []
    decreases |s|
  {
    if s == [] then [[]]
    else if IsSpace(s[0]) then
      var t := Gaps(s[1..]);
      [[s[0]] + t[0]] + t[1..]
    else
      [[]] + Gaps(s[|Word(s)|..])
  }

  lemma WeaveLonger(a: string, gaps: seq<string>, words: seq<string>)
    requires |gaps| == |words| + 1
    ensures Weave([a + gaps[0]] + gaps[1..], words) == a + Weave(gaps, words)
  {
    var g := [a + gaps[0]] + gaps[1..];
    assert g[1..] == gaps[1..];
  }

  /** A cut stays a cut when whitespace is put in front of the text. */
  lemma CutAfterSpace(c: char, s: string, words: seq<string>, gaps: seq<string>)
    requires IsSpace(c) && CutAt(s, words, gaps)
    ensures CutAt([c] + s, words, [[c] + gaps[0]] + gaps[1..])
  {
    WeaveLonger([c], gaps, words);
    var g := [[c] + gaps[0]] + gaps[1..];
    forall k | 0 <= k < |g| ensures AllSpace(g[k]) {
      if k > 0 { assert g[k] == gaps[k]; }
    }
  }

  /** A cut stays a cut when a word is put in front of the text, provided
      the text does not continue that word. */
  lemma CutAfterWord(w: string, s: string, words: seq<string>, gaps: seq<string>)
    requires w != [] && NoSpace(w) && (s == [] || IsSpace(s[0]))
    requires CutAt(s, words, gaps)
    ensures CutAt(w + s, [w] + words, [[]] + gaps)
  {
    var g, ws := [[]] + gaps, [w] + words;
    assert g[1..] == gaps && ws[1..] == words;
    if words != [] {
      assert s == gaps[0] + words[0] + Weave(gaps[1..], words[1..]);
      assert gaps[0] != [];
    }
    forall k | 0 <= k < |g| ensures AllSpace(g[k]) {
      if k > 0 { assert g[k] == gaps[k - 1]; }
    }
    forall k | 0 < k < |ws| ensures g[k] != [] {
      assert g[k] == gaps[k - 1];
    }
  }

  /** `split()` cuts exactly at the whitespace runs, which `Gaps` names. */
  lemma {:induction false} WordsCut(s: string)
    ensures CutAt(s, Words(s), Gaps(s))
    decreases |s|
  {
    if s == [] {
    } else if IsSpace(s[0]) {
      WordsCut(s[1..]);
      CutAfterSpace(s[0], s[1..], Words(s[1..]), Gaps(s[1..]));
      assert s == [s[0]] + s[1..];
    } else {
      var w := Word(s);
      var rest := s[|w|..];
      WordsCut(rest);
      CutAfterWord(w, rest, Words(rest), Gaps(rest));
      assert s == w + rest;
    }
  }

  lemma {:induction false} WordOfWord(w: string, rest: string)
    requires NoSpace(w)
    requires rest == [] || IsSpace(rest[0])
    ensures Word(w + rest) == w
    decreases |w|
  {
    if w == [] {
      assert w + rest == rest;
    } else {
      var s := w + rest;
      assert s[0] == w[0] && !IsSpace(w[0]);
      assert s[1..] == w[1..] + rest;
      assert NoSpace(w[1..]) by {
        forall i | 0 <= i < |w[1..]| ensures !IsSpace(w[1..][i]) {
          assert w[1..][i] == w[i + 1];
        }
      }
      WordOfWord(w[1..], rest);
      assert w == [w[0]] + w[1..];
    }
  }

  /** A cut whose first gap is not empty starts with whitespace, and the
      rest of the text is cut the same way with that gap one shorter. */
  lemma CutDropSpace(s: string, words: seq<string>, gaps: seq<string>)
    requires CutAt(s, words, gaps) && gaps[0] != []
    ensures s != [] && IsSpace(s[0]) && gaps[0] == [s[0]] + gaps[0][1..]
    ensures CutAt(s[1..], words, [gaps[0][1..]] + gaps[1..])
  {
    var g := [gaps[0][1..]] + gaps[1..];
    WeaveLonger([gaps[0][0]], g, words);
    assert [gaps[0][0]] + g[0] == gaps[0];
    assert [[gaps[0][0]] + g[0]] + g[1..] == gaps;
    assert s[0] == gaps[0][0] && s[1..] == Weave(g, words);
    forall k | 0 <= k < |g| ensures AllSpace(g[k]) {
      if k > 0 { assert g[k] == gaps[k]; }
    }
  }

  /** A cut whose first gap is empty starts with its first word, which is
      the longest whitespace-free prefix, and the rest is cut by the
      remaining words and gaps. */
  lemma CutDropWord(s: string, words: seq<string>, gaps: seq<string>)
    requires CutAt(s, words, gaps) && gaps[0] == [] && words != []
    ensures s != [] && !IsSpace(s[0]) && Word(s) == words[0]
    ensures CutAt(s[|words[0]|..], words[1..], gaps[1..])
  {
    var w, rest := words[0], Weave(gaps[1..], words[1..]);
    assert s == w + rest;
    if |words| > 1 {
      assert gaps[1] != [] && IsSpace(gaps[1][0]);
      assert rest[0] == gaps[1][0];
    } else {
      assert rest == gaps[1];
    }
    WordOfWord(w, rest);
    assert s[0] == w[0] && s[|w|..] == rest;
    forall k | 0 <= k < |gaps[1..]| ensures AllSpace(gaps[1..][k]) {
      assert gaps[1..][k] == gaps[k + 1];
    }
  }

  /** No other cut fits: whitespace runs and words are determined by the
      text, so `split()` is the one way to cut it. */
  lemma {:induction false} CutUnique(s: string, words: seq<string>, gaps: seq<string>)
    requires CutAt(s, words, gaps)
    ensures words == Words(s) && gaps == Gaps(s)
    decreases |s|
  {
    if gaps[0] != [] {
      CutDropSpace(s, words, gaps);
      CutUnique(s[1..], words, [gaps[0][1..]] + gaps[1..]);
      SplitAfterSpace(s, words, gaps);
    } else if words == [] {
      assert s == Weave(gaps, words) == [];
    } else {
      CutDropWord(s, words, gaps);
      CutUnique(s[|words[0]|..], words[1..], gaps[1..]);
      SplitAfterWord(s, words, gaps);
    }
  }

  lemma SplitAfterSpace(s: string, words: seq<string>, gaps: seq<string>)
    requires s != [] && IsSpace(s[0]) && |gaps| >= 1 && gaps[0] != [] && gaps[0] == [s[0]] + gaps[0][1..]
    requires words == Words(s[1..]) && [gaps[0][1..]] + gaps[1..] == Gaps(s[1..])
    ensures words == Words(s) && gaps == Gaps(s)
  {
    var g := Gaps(s[1..]);
    assert Gaps(s) == [[s[0]] + g[0]] + g[1..];
    assert g[0] == gaps[0][1..] && g[1..] == gaps[1..];
  }

  lemma SplitAfterWord(s: string, words: seq<string>, gaps: seq<string>)
    requires s != [] && !IsSpace(s[0]) && words != [] && Word(s) == words[0] && |words[0]| <= |s|
    requires |gaps| >= 1 && gaps[0] == []
    requires words[1..] == Words(s[|words[0]|..]) && gaps[1..] == Gaps(s[|words[0]|..])
    ensures words == Words(s) && gaps == Gaps(s)
  {
    assert words == [words[0]] + words[1..];
    assert gaps == [[]] + gaps[1..];
  }

  /** `split()` returns the maximal runs of non-whitespace, and they are the
      only words any such cut of the text can have. */
  lemma SplitsIntoWords(s: string, words: seq<string>)
    ensures SplitsInto(s, words) <==> words == Words(s)
  {
    WordsCut(s);
    if SplitsInto(s, words) {
      var gaps :| CutAt(s, words, gaps);
      CutUnique(s, words, gaps);
    }
  }

  lemma {:induction false} NonSpaceAppend(a: string, b: string)
    ensures NonSpace(a + b) == NonSpace(a) + NonSpace(b)
  {
    if a == [] {
      assert a + b == b;
    } else {
      assert (a + b)[1..] == a[1..] + b;
      NonSpaceAppend(a[1..], b);
    }
  }

  lemma {:induction false} NonSpaceOfWord(s: string)
    ensures NonSpace(s) == Word(s) + NonSpace(s[|Word(s)|..])
  {
    if s != [] && !IsSpace(s[0]) {
      NonSpaceOfWord(s[1..]);
      assert s[1..][|Word(s[1..])|..] == s[|Word(s)|..];
    }
  }

  /** `split()` loses only whitespace: the words, put back together, are
      exactly the non-whitespace characters of the text. */
  lemma {:induction false} WordsKeepNonSpace(s: string)
    ensures Concat(Words(s)) == NonSpace(s)
    decreases |s|
  {
    if s == [] {
    } else if IsSpace(s[0]) {
      WordsKeepNonSpace(s[1..]);
    } else {
      var w := Word(s);
      WordsKeepNonSpace(s[|w|..]);
      NonSpaceOfWord(s);
      assert Words(s) == [w] + Words(s[|w|..]);
      assert Concat(Words(s)) == w + Concat(Words(s[|w|..]));
    }
  }

  /** `split()` yields no word exactly when the text is all whitespace. */
  lemma {:induction false} WordsEmptyIffAllSpace(s: string)
    ensures Words(s) == [] <==> AllSpace(s)
    decreases |s|
  {
    if s != [] && IsSpace(s[0]) {
      WordsEmptyIffAllSpace(s[1..]);
      if AllSpace(s[1..]) {
        forall i | 0 <= i < |s| ensures IsSpace(s[i]) {
          if i > 0 { assert s[i] == s[1..][i - 1]; }
        }
      }
    }
  }

  /** Trailing whitespace never changes the result of `split()`, so the
      `rstrip()` before it is harmless. */
  lemma {:induction false} WordsIgnoreRStrip(s: string)
    ensures Words(RStrip(s)) == Words(s)
  {
    var r := RStrip(s);
    assert s == r + s[|r|..];
    WordsIgnoreTrailingSpace(r, s[|r|..]);
  }

  lemma {:induction false} WordsIgnoreTrailingSpace(s: string, t: string)
    requires AllSpace(t)
    ensures Words(s + t) == Words(s)
    decreases |s|
  {
    if s == [] {
      assert s + t == t;
      WordsEmptyIffAllSpace(t);
    } else if IsSpace(s[0]) {
      assert (s + t)[1..] == s[1..] + t;
      WordsIgnoreTrailingSpace(s[1..], t);
    } else {
      var w := Word(s);
      WordOfPrefix(s, t);
      assert (s + t)[|w|..] == s[|w|..] + t;
      WordsIgnoreTrailingSpace(s[|w|..], t);
    }
  }

  lemma {:induction false} WordOfPrefix(s: string, t: string)
    requires AllSpace(t)
    ensures Word(s + t) == Word(s)
  {
    if s == [] {
      assert s + t == t;
    } else if !IsSpace(s[0]) {
      assert (s + t)[1..] == s[1..] + t;
      WordOfPrefix(s[1..], t);
    }
  }
}
