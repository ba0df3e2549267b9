/** Stage one of the pair n-gram aligner (task1/baselines/fst/align.py):
    the boolean flag parser, the one-arc-per-label automata of the covering
    grammar, arc counting, and the bookkeeping of `_lexicon_covering` (line
    keys, the first-tab split, the label sets and the two archives). */
module Align {
  import opened Wrappers
  import opened Text
  import opened Format
  import opened Automaton

  datatype AlignError =
    | MalformedLine    // no tab left after stripping: the two-name unpacking raises
    | CompileFailure   // a field the tokenizer cannot compile into an acceptor
    | EmptyCorpus      // no lines: `linenum` is unbound when it is logged
    | IllFormedFst     // the `verify()` assertion on a label union fails

  // ---------------------------------------------------------------------
  // Boolean flags.

  function LowerChar(c: char): char {
    if 'A' <= c <= 'Z' then (c as int + 32) as char else c
  }

  /** `str.lower` on the ASCII letters. */
  function Lower(s: string): (r: string)
    ensures |r| == |s| && forall i :: 0 <= i < |s| ==> r[i] == LowerChar(s[i])
  {
    if s == [] then [] else [LowerChar(s[0])] + Lower(s[1..])
  }

  /** `_str_to_bool`: "true" and "1" in any case are true, "false" and "0"
      in any case are false, and anything else is an error that quotes the
      lowered value. */
  function StrToBool(value: string): (r: Result<bool, string>)
    ensures r == Success(true) <==> Lower(value) == "true" || Lower(value) == "1"
    ensures r == Success(false) <==> Lower(value) == "false" || Lower(value) == "0"
    ensures r.Failure? ==> r.error == "Boolean value expected; got " + Lower(value)
  {
    var v := Lower(value);
    if v == "true" || v == "1" then Success(true)
    else if v == "false" || v == "0" then Success(false)
    else Failure("Boolean value expected; got " + v)
  }

  lemma {:induction false} LowerIdempotent(s: string)
    ensures Lower(Lower(s)) == Lower(s)
  {
    if s != [] {
      LowerIdempotent(s[1..]);
    }
  }

  /** The flag parser ignores case: a value and its lower-case form parse
      the same way. */
  lemma StrToBoolIgnoresCase(value: string)
    ensures StrToBool(Lower(value)) == StrToBool(value)
  {
    LowerIdempotent(value);
  }

  /** Python's own spellings of the two booleans are accepted. */
  lemma StrToBoolOfPythonBools()
    ensures StrToBool("True") == Success(true) && StrToBool("False") == Success(false)
  {
    assert Lower("True") == "true";
    assert Lower("False") == "false";
  }

  // ---------------------------------------------------------------------
  // Label unions.

  /** A label set that `_label_union` may change in place. */
  class LabelSet {
    var elems: set<int>

    constructor ()
      ensures elems == {}
    {
      elems := {};
    }

    /** `set.add`. */
    method Add(l: int)
      modifies this
      ensures elems == old(elems) + {l}
    {
      elems := elems + {l};
    }

    /** `set.update` with the labels of one path. */
    method Update(ls: seq<int>)
      modifies this
      ensures elems == old(elems) + Elems(ls)
    {
      elems := elems + Elems(ls);
    }
  }

  function Elems(ls: seq<int>): set<int> {
    set l | l in ls
  }

  /** No label is negative (negative labels are reserved in OpenFst). */
  predicate NonNegative(labels: set<int>) {
    forall l :: l in labels ==> l >= 0
  }

  /** The automaton `_label_union` builds for `labels`: two states, the
      first initial and the second final with weight one, and exactly one arc
      per label from the first state to the second, reading and writing that
      label with weight one. */
  predicate IsLabelUnion(arcs: seq<seq<Arc>>, start: int, finals: map<nat, real>, labels: set<int>) {
    && |arcs| == 2 && start == 0 && finals == map[1 := One] && arcs[1] == []
    && |arcs[0]| == |labels|
    && (forall k :: 0 <= k < |arcs[0]| ==>
          var a := arcs[0][k];
          a.ilabel == a.olabel && a.ilabel in labels && a.weight == One && a.nextstate == 1)
    && (forall i, j :: 0 <= i < j < |arcs[0]| ==> arcs[0][i].ilabel != arcs[0][j].ilabel)
    && (forall l :: l in labels ==> exists k :: 0 <= k < |arcs[0]| && arcs[0][k].ilabel == l)
  }

  /** `_label_union`: builds the automaton over `labels`, first adding the
      epsilon label 0 to the caller's set when `epsilon` holds; the final
      `verify()` fails exactly when some label is negative. */
  method LabelUnion(labels: LabelSet, epsilon: bool) returns (r: Result<Fst, AlignError>)
    modifies labels
    ensures labels.elems == if epsilon then old(labels.elems) + {0} else old(labels.elems)
    ensures r.Success? <==> NonNegative(labels.elems)
    ensures r.Failure? ==> r.error == IllFormedFst
    ensures r.Success? ==>
      fresh(r.value) && IsLabelUnion(r.value.arcs, r.value.start, r.value.finals, labels.elems)
    ensures r.Success? ==> Narcs(r.value) == |labels.elems|
  {
    var side := new Fst();
    var src := side.AddState();
    side.SetStart(src);
    var dst := side.AddState();
    if epsilon {
      labels.Add(0);
    }
    var one := One;
    ghost var all := labels.elems;
    ghost var done: seq<int> := [];
    var rest := labels.elems;
    while rest != {}
      invariant |side.arcs| == 2 && side.arcs[1] == [] && side.start == 0 && side.finals == map[]
      invariant labels.elems == all && rest <= all
      invariant |side.arcs[0]| == |done| && |done| + |rest| == |all|
      invariant forall k :: 0 <= k < |done| ==> side.arcs[0][k] == Arc(done[k], done[k], one, dst)
      invariant forall k :: 0 <= k < |done| ==> done[k] in all && done[k] !in rest
      invariant forall i, j :: 0 <= i < j < |done| ==> done[i] != done[j]
      invariant forall l :: l in all ==> l in rest || l in done
      decreases rest
    {
      NonEmptyHasElement(rest);
      var l :| l in rest;
      side.AddArc(src, Arc(l, l, one, dst));
      rest := rest - {l};
      done := done + [l];
    }
    side.SetFinal(dst, one);
    UnionArcs(side.arcs[0], done, all);
    assert IsLabelUnion(side.arcs, side.start, side.finals, all);
    LabelUnionVerifies(side.arcs, side.start, side.finals, all);
    LabelUnionArcCount(side.arcs, side.start, side.finals, all);
    if side.Verify() {
      r := Success(side);
    } else {
      r := Failure(IllFormedFst);
    }
  }

  lemma NonEmptyHasElement(s: set<int>)
    requires s != {}
    ensures exists x :: x in s
  {
    if forall x :: x !in s {
      assert false;
    }
  }

  /** Arcs built one per processed label carry each label exactly once. */
  lemma UnionArcs(arcs: seq<Arc>, done: seq<int>, all: set<int>)
    requires |arcs| == |done|
    requires forall k :: 0 <= k < |done| ==> arcs[k] == Arc(done[k], done[k], One, 1)
    requires forall l :: l in all ==> l in done
    ensures forall l :: l in all ==> exists k :: 0 <= k < |arcs| && arcs[k].ilabel == l
  {
    forall l | l in all
      ensures exists k :: 0 <= k < |arcs| && arcs[k].ilabel == l
    {
      var k :| 0 <= k < |done| && done[k] == l;
      assert arcs[k].ilabel == l;
    }
  }

  /** A label union passes OpenFst's `Verify` exactly when no label is
      negative. */
  lemma LabelUnionVerifies(arcs: seq<seq<Arc>>, start: int, finals: map<nat, real>, labels: set<int>)
    requires IsLabelUnion(arcs, start, finals, labels)
    ensures Verified(arcs, start, finals) <==> NonNegative(labels)
  {
    if !NonNegative(labels) {
      var l :| l in labels && l < 0;
      var k :| 0 <= k < |arcs[0]| && arcs[0][k].ilabel == l;
      assert !(arcs[0][k].ilabel >= 0);
    }
  }

  /** `_narcs`: the number of arcs summed over all states; no state has
      more, and it is zero only for an automaton without arcs. */
  function Narcs(f: Fst): (n: nat)
    reads f
    ensures forall s :: 0 <= s < |f.arcs| ==> |f.arcs[s]| <= n
    ensures n == 0 <==> forall s :: 0 <= s < |f.arcs| ==> f.arcs[s] == []
  {
    TotalArcsBounds(f.arcs);
    TotalArcs(f.arcs)
  }

  /** A label union has exactly one arc per label. */
  lemma LabelUnionArcCount(arcs: seq<seq<Arc>>, start: int, finals: map<nat, real>, labels: set<int>)
    requires IsLabelUnion(arcs, start, finals, labels)
    ensures TotalArcs(arcs) == |labels|
  {
    assert arcs[..1][..0] == [];
    assert TotalArcs(arcs[..1]) == |arcs[0]|;
  }

  // ---------------------------------------------------------------------
  // The lexicon: one key and one pair of compiled strings per line.

  /** The archive key of line `linenum` (counted from 1): `{linenum:08x}`,
      at least eight lower-case hexadecimal digits that read back as the
      line number. */
  function Key(linenum: nat): (k: string)
    ensures |k| >= 8 && forall i :: 0 <= i < |k| ==> IsHexDigit(k[i])
    ensures FromDigits(k, 16) == linenum
  {
    HexDigits(linenum, 8);
    HexRoundTrip(linenum, 8);
    Hex(linenum, 8)
  }

  /** Different lines get different keys. */
  lemma KeyInjective(n: nat, m: nat)
    requires Key(n) == Key(m)
    ensures n == m
  {
  }

  /** Below 16^8 lines every key has 8 digits and key order is line order,
      so the archives receive their keys in increasing order. */
  lemma KeyOrder(n: nat, m: nat)
    requires n < Pow16(8) && m < Pow16(8)
    ensures |Key(n)| == 8
    ensures n < m <==> LexLess(Key(n), Key(m))
  {
    HexLength(n, 8);
    HexOrder(n, m, 8);
  }

  /** `line.rstrip().split("\t", 1)` unpacked into `(g, p)`: the grapheme
      field before the first tab and everything after it, trailing
      whitespace dropped. */
  function SplitEntry(line: string): (r: Option<(string, string)>)
    ensures r.None? <==> '\t' !in RStrip(line)
    ensures r.Some? ==> '\t' !in r.value.0 && RStrip(line) == r.value.0 + ['\t'] + r.value.1
    ensures r.Some? && r.value.1 != [] ==> !IsSpace(r.value.1[|r.value.1| - 1])
  {
    SplitOnce(RStrip(line), '\t')
  }

  /** What one line contributes: its key, its two fields and the labels of
      the acceptor compiled from each. */
  datatype Entry = Entry(key: string, g: string, p: string, gLabels: seq<int>, pLabels: seq<int>)

  /** A tokenizer turns a field into the labels of its single path, or fails
      (pynini's `accep` with a token type). */
  type Tokenizer = string -> Option<seq<int>>

  /** One iteration of the loop over lines, as a reference: split, compile
      the grapheme field, then the phoneme field. */
  function CompileLine(gTok: Tokenizer, pTok: Tokenizer, linenum: nat, line: string): Result<Entry, AlignError> {
    match SplitEntry(line)
    case None => Failure(MalformedLine)
    case Some((g, p)) =>
      match gTok(g)
      case None => Failure(CompileFailure)
      case Some(gl) =>
        match pTok(p)
        case None => Failure(CompileFailure)
        case Some(pl) => Success(Entry(Key(linenum), g, p, gl, pl))
  }

  function LineCompiler(gTok: Tokenizer, pTok: Tokenizer): ((nat, string)) -> Result<Entry, AlignError> {
    (e: (nat, string)) => CompileLine(gTok, pTok, e.0, e.1)
  }

  /** `enumerate(source, 1)`. */
  function Numbered(lines: seq<string>): (r: seq<(nat, string)>)
    ensures |r| == |lines| && forall k :: 0 <= k < |lines| ==> r[k] == (k + 1, lines[k])
  {
    seq(|lines|, k requires 0 <= k < |lines| => (k + 1, lines[k]))
  }

  /** The entries of all lines, or the error of the first line that fails. */
  function Entries(lines: seq<string>, gTok: Tokenizer, pTok: Tokenizer): Result<seq<Entry>, AlignError> {
    Collect(Numbered(lines), LineCompiler(gTok, pTok))
  }

  function GraphemeLabels(es: seq<Entry>): set<int> {
    if es == [] then {} else GraphemeLabels(es[..|es| - 1]) + Elems(es[|es| - 1].gLabels)
  }

  function PhonemeLabels(es: seq<Entry>): set<int> {
    if es == [] then {} else PhonemeLabels(es[..|es| - 1]) + Elems(es[|es| - 1].pLabels)
  }

  /** A label belongs to the grapheme set exactly when some line's grapheme
      acceptor carries it. */
  lemma {:induction false} GraphemeLabelsMembers(es: seq<Entry>, l: int)
    ensures l in GraphemeLabels(es) <==> exists k :: 0 <= k < |es| && l in es[k].gLabels
  {
    if es != [] {
      var init := es[..|es| - 1];
      GraphemeLabelsMembers(init, l);
      assert forall k :: 0 <= k < |init| ==> init[k] == es[k];
    }
  }

  /** A label belongs to the phoneme set exactly when some line's phoneme
      acceptor carries it. */
  lemma {:induction false} PhonemeLabelsMembers(es: seq<Entry>, l: int)
    ensures l in PhonemeLabels(es) <==> exists k :: 0 <= k < |es| && l in es[k].pLabels
  {
    if es != [] {
      var init := es[..|es| - 1];
      PhonemeLabelsMembers(init, l);
      assert forall k :: 0 <= k < |init| ==> init[k] == es[k];
    }
  }

  function GraphemeArchive(es: seq<Entry>): (far: seq<(string, string)>)
    ensures |far| == |es| && forall k :: 0 <= k < |es| ==> far[k] == (es[k].key, es[k].g)
  {
    if es == [] then [] else GraphemeArchive(es[..|es| - 1]) + [(es[|es| - 1].key, es[|es| - 1].g)]
  }

  function PhonemeArchive(es: seq<Entry>): (far: seq<(string, string)>)
    ensures |far| == |es| && forall k :: 0 <= k < |es| ==> far[k] == (es[k].key, es[k].p)
  {
    if es == [] then [] else PhonemeArchive(es[..|es| - 1]) + [(es[|es| - 1].key, es[|es| - 1].p)]
  }

  /** A compiled line is keyed by its number, split at its first tab, and
      carries the labels its two fields compile to. */
  lemma CompileLineFacts(gTok: Tokenizer, pTok: Tokenizer, linenum: nat, line: string)
    requires CompileLine(gTok, pTok, linenum, line).Success?
    ensures var e := CompileLine(gTok, pTok, linenum, line).value;
      && e.key == Key(linenum) && SplitEntry(line) == Some((e.g, e.p))
      && gTok(e.g) == Some(e.gLabels) && pTok(e.p) == Some(e.pLabels)
  {
  }

  /** Entry `k` is the compiled line `k + 1`. */
  lemma EntriesAt(lines: seq<string>, gTok: Tokenizer, pTok: Tokenizer, k: nat)
    requires Entries(lines, gTok, pTok).Success? && k < |lines|
    ensures |Entries(lines, gTok, pTok).value| == |lines|
    ensures CompileLine(gTok, pTok, k + 1, lines[k]) == Success(Entries(lines, gTok, pTok).value[k])
  {
    assert Numbered(lines)[k] == (k + 1, lines[k]);
  }

  /** Entry `k` carries the key of line `k + 1`. */
  lemma EntryKey(lines: seq<string>, gTok: Tokenizer, pTok: Tokenizer, k: nat)
    requires Entries(lines, gTok, pTok).Success? && k < |lines|
    ensures |Entries(lines, gTok, pTok).value| == |lines|
    ensures Entries(lines, gTok, pTok).value[k].key == Key(k + 1)
  {
    EntriesAt(lines, gTok, pTok, k);
    CompileLineFacts(gTok, pTok, k + 1, lines[k]);
  }

  /** Entries keyed by consecutive line numbers from 1, fewer than 16^8 of
      them, have strictly increasing keys. */
  lemma KeysIncrease(es: seq<Entry>)
    requires |es| < Pow16(8)
    requires forall k :: 0 <= k < |es| ==> es[k].key == Key(k + 1)
    ensures forall i, j :: 0 <= i < j < |es| ==> LexLess(es[i].key, es[j].key)
  {
    forall i, j | 0 <= i < j < |es|
      ensures LexLess(es[i].key, es[j].key)
    {
      KeyOrder(i + 1, j + 1);
    }
  }

  /** With fewer than 16^8 lines the keys of the entries strictly increase,
      the order the archive writers need. */
  lemma EntriesKeysIncrease(lines: seq<string>, gTok: Tokenizer, pTok: Tokenizer)
    requires Entries(lines, gTok, pTok).Success? && |lines| < Pow16(8)
    ensures var es := Entries(lines, gTok, pTok).value;
      forall i, j :: 0 <= i < j < |es| ==> LexLess(es[i].key, es[j].key)
  {
    var es := Entries(lines, gTok, pTok).value;
    forall k | 0 <= k < |lines|
      ensures es[k].key == Key(k + 1)
    {
      EntryKey(lines, gTok, pTok, k);
    }
    KeysIncrease(es);
  }

  /** A line without a tab (after stripping) stops the lexicon with
      `MalformedLine` when every earlier line compiled. */
  lemma EntriesMalformed(lines: seq<string>, gTok: Tokenizer, pTok: Tokenizer, k: nat)
    requires k < |lines| && '\t' !in RStrip(lines[k])
    requires forall j :: 0 <= j < k ==> CompileLine(gTok, pTok, j + 1, lines[j]).Success?
    ensures Entries(lines, gTok, pTok) == Failure(MalformedLine)
  {
    var xs, f := Numbered(lines), LineCompiler(gTok, pTok);
    assert f(xs[k]) == Failure(MalformedLine) by {
      assert xs[k] == (k + 1, lines[k]);
      assert SplitEntry(lines[k]).None?;
    }
    forall j | 0 <= j < k
      ensures f(xs[..k][j]).Success?
    {
      assert xs[..k][j] == (j + 1, lines[j]);
    }
    CollectFirstFailure(xs, f, k);
  }

  /** The result of stage one: the two archives (key and field of every
      line) and the two label-union automata. */
  datatype Covering = Covering(gFar: seq<(string, string)>, pFar: seq<(string, string)>, gSide: Fst, pSide: Fst)

  function WithEpsilon(labels: set<int>, epsilon: bool): set<int> {
    if epsilon then labels + {0} else labels
  }

  /** `_lexicon_covering` up to the covering grammar: per line a key, the
      split, two compiled acceptors whose labels join the label sets and
      whose fields go to the archives; then the two label unions. */
  method LexiconCovering(lines: seq<string>, gTok: Tokenizer, pTok: Tokenizer, inputEpsilon: bool, outputEpsilon: bool)
    returns (r: Result<Covering, AlignError>)
    ensures Entries(lines, gTok, pTok).Failure? ==> r == Failure(Entries(lines, gTok, pTok).error)
    ensures Entries(lines, gTok, pTok).Success? && lines == [] ==> r == Failure(EmptyCorpus)
    ensures Entries(lines, gTok, pTok).Success? && lines != [] ==>
      var es := Entries(lines, gTok, pTok).value;
      var gl, pl := WithEpsilon(GraphemeLabels(es), inputEpsilon), WithEpsilon(PhonemeLabels(es), outputEpsilon);
      && (r.Success? <==> NonNegative(gl) && NonNegative(pl))
      && (r.Failure? ==> r.error == IllFormedFst)
      && (r.Success? ==>
            && r.value.gFar == GraphemeArchive(es) && r.value.pFar == PhonemeArchive(es)
            && fresh(r.value.gSide) && fresh(r.value.pSide)
            && IsLabelUnion(r.value.gSide.arcs, r.value.gSide.start, r.value.gSide.finals, gl)
            && IsLabelUnion(r.value.pSide.arcs, r.value.pSide.start, r.value.pSide.finals, pl))
  {
    var gLabels := new LabelSet();
    var pLabels := new LabelSet();
    var gFar: seq<(string, string)> := [];
    var pFar: seq<(string, string)> := [];
    ghost var xs, f := Numbered(lines), LineCompiler(gTok, pTok);
    ghost var es: seq<Entry> := [];
    assert xs[..0] == [];
    var i := 0;
    while i < |lines|
      invariant 0 <= i <= |lines|
      invariant Collect(xs[..i], f) == Success(es)
      invariant gFar == GraphemeArchive(es) && pFar == PhonemeArchive(es)
      invariant gLabels.elems == GraphemeLabels(es) && pLabels.elems == PhonemeLabels(es)
    {
      var linenum := i + 1;
      var key := Key(linenum);
      assert xs[i] == (linenum, lines[i]);
      var split := SplitEntry(lines[i]);
      if split.None? {
        CollectFirstFailure(xs, f, i);
        return Failure(MalformedLine);
      }
      var (g, p) := split.value;
      var gFst := gTok(g);
      if gFst.None? {
        CollectFirstFailure(xs, f, i);
        return Failure(CompileFailure);
      }
      gLabels.Update(gFst.value);
      gFar := gFar + [(key, g)];
      var pFst := pTok(p);
      if pFst.None? {
        CollectFirstFailure(xs, f, i);
        return Failure(CompileFailure);
      }
      pLabels.Update(pFst.value);
      pFar := pFar + [(key, p)];
      ghost var e := Entry(key, g, p, gFst.value, pFst.value);
      assert f(xs[i]) == Success(e);
      CollectStep(xs, f, i);
      EntriesStep(es, e);
      es := es + [e];
      i := i + 1;
    }
    assert xs[..i] == xs;
    if lines == [] {
      return Failure(EmptyCorpus);
    }
    var gSide := LabelUnion(gLabels, inputEpsilon);
    if gSide.Failure? {
      return Failure(IllFormedFst);
    }
    var pSide := LabelUnion(pLabels, outputEpsilon);
    if pSide.Failure? {
      return Failure(IllFormedFst);
    }
    r := Success(Covering(gFar, pFar, gSide.value, pSide.value));
  }

  /** One more entry extends both archives and both label sets. */
  lemma EntriesStep(es: seq<Entry>, e: Entry)
    ensures GraphemeArchive(es + [e]) == GraphemeArchive(es) + [(e.key, e.g)]
    ensures PhonemeArchive(es + [e]) == PhonemeArchive(es) + [(e.key, e.p)]
    ensures GraphemeLabels(es + [e]) == GraphemeLabels(es) + Elems(e.gLabels)
    ensures PhonemeLabels(es + [e]) == PhonemeLabels(es) + Elems(e.pLabels)
  {
    assert (es + [e])[..|es|] == es;
  }
}
