/** Scoring one gold/hypothesis pair (task1/evaluation/evallib.py): the
    edit distance as the script computes it, the per-pair sufficient
    statistics, and the parsing of one line of a gold/hypothesis TSV file. */
module EvalLib {
  import opened Wrappers
  import opened Text

  /** numpy's `uint8`, the element type of the distance table. */
  newtype uint8 = b: int | 0 <= b < 256

  function Max(a: nat, b: nat): nat { if a < b then b else a }

  function Min3(a: int, b: int, c: int): (m: int)
    ensures m <= a && m <= b && m <= c
    ensures m == a || m == b || m == c
  {
    if a <= b && a <= c then a else if b <= c then b else c
  }

  /** `table[i][j]` as the script fills it: the corner is 0, every other
      cell of row 0 and column 0 is 1 (not i or j), a matching pair copies
      the diagonal, and otherwise the smallest neighbour plus one is stored
      in a `uint8` cell, so that 255 + 1 wraps to 0. */
  function TableCell<T(==)>(x: seq<T>, y: seq<T>, i: nat, j: nat): uint8
    requires i <= |x| && j <= |y|
    decreases i + j
  {
    if i == 0 && j == 0 then 0
    else if i == 0 || j == 0 then 1
    else if x[i - 1] == y[j - 1] then TableCell(x, y, i - 1, j - 1)
    else
      var m := Min3(TableCell(x, y, i - 1, j) as int, TableCell(x, y, i, j - 1) as int,
                    TableCell(x, y, i - 1, j - 1) as int);
      Increment(m as uint8)
  }

  /** `c + 1` on a `uint8` scalar: wraps around from 255 to 0. */
  function Increment(c: uint8): (r: uint8)
    ensures r as int == if c == 255 then 0 else c as int + 1
  {
    ((c as int + 1) % 256) as uint8
  }

  /** Even wrapped, no cell exceeds the longer of its two prefixes: a
      wrap-around only ever lowers a cell. */
  lemma {:induction false} TableCellAtMostMax<T>(x: seq<T>, y: seq<T>, i: nat, j: nat)
    requires i <= |x| && j <= |y|
    ensures TableCell(x, y, i, j) as int <= Max(i, j)
    decreases i + j
  {
    if i > 0 && j > 0 {
      TableCellAtMostMax(x, y, i - 1, j - 1);
    }
  }

  /** The same recurrence over unbounded integers: what the table is meant
      to hold. */
  function Cell<T(==)>(x: seq<T>, y: seq<T>, i: nat, j: nat): nat
    requires i <= |x| && j <= |y|
    decreases i + j
  {
    if i == 0 && j == 0 then 0
    else if i == 0 || j == 0 then 1
    else if x[i - 1] == y[j - 1] then Cell(x, y, i - 1, j - 1)
    else Min3(Cell(x, y, i - 1, j), Cell(x, y, i, j - 1), Cell(x, y, i - 1, j - 1)) + 1
  }

  /** `int(table[-1][-1])` as the script computes it. */
  function WrappedDistance<T(==)>(x: seq<T>, y: seq<T>): (r: uint8)
    ensures r as int <= Max(|x|, |y|)
  {
    TableCellAtMostMax(x, y, |x|, |y|);
    TableCell(x, y, |x|, |y|)
  }

  /** The distance the evaluator means; it agrees with the script whenever
      both sequences have at most 255 labels (DistanceFitsTable). Against
      an empty sequence it is 1, whatever the other's length, so a missing
      or empty hypothesis costs one edit rather than one per gold label. */
  function Distance<T(==)>(x: seq<T>, y: seq<T>): (d: nat)
    ensures x == [] ==> d == (if y == [] then 0 else 1)
    ensures y == [] ==> d == (if x == [] then 0 else 1)
  {
    Cell(x, y, |x|, |y|)
  }

  /** `edit_distance(x, y)`: fills the `uint8` table in place, row by row. */
  method EditDistance<T(==)>(x: seq<T>, y: seq<T>) returns (d: uint8)
    ensures d == WrappedDistance(x, y)
    ensures |x| <= 255 && |y| <= 255 ==> d as int == Distance(x, y)
    ensures |x| <= 255 && |y| <= 255 ==> (d == 0 <==> x == y)
  {
    var idim := |x| + 1;
    var jdim := |y| + 1;
    var table := new uint8[idim, jdim]((_, _) => 0);
    forall r | 1 <= r < idim {
      table[r, 0] := 1;
    }
    forall c | 1 <= c < jdim {
      table[0, c] := 1;
    }
    var i := 1;
    while i < idim
      invariant 1 <= i <= idim
      invariant forall r, c {:trigger table[r, c]} :: 0 <= r < i && 0 <= c < jdim ==> table[r, c] == TableCell(x, y, r, c)
      invariant forall r :: i <= r < idim ==> table[r, 0] == 1
    {
      FillRow(table, x, y, i);
      i := i + 1;
    }
    d := table[idim - 1, jdim - 1];
    if |x| <= 255 && |y| <= 255 {
      DistanceFitsTable(x, y);
      DistanceZeroIffEqual(x, y);
    }
  }

  /** The inner loop of `edit_distance`: fills row i from the row above. */
  method FillRow<T(==)>(table: array2<uint8>, x: seq<T>, y: seq<T>, i: nat)
    requires table.Length0 == |x| + 1 && table.Length1 == |y| + 1 && 1 <= i <= |x|
    requires forall r, c {:trigger table[r, c]} :: 0 <= r < i && 0 <= c <= |y| ==> table[r, c] == TableCell(x, y, r, c)
    requires table[i, 0] == 1
    modifies table
    ensures forall r, c {:trigger table[r, c]} :: 0 <= r <= i && 0 <= c <= |y| ==> table[r, c] == TableCell(x, y, r, c)
    ensures forall r, c :: i < r <= |x| && 0 <= c <= |y| ==> table[r, c] == old(table[r, c])
  {
    var j := 1;
    while j <= |y|
      invariant 1 <= j <= |y| + 1
      invariant forall r, c :: 0 <= r <= |x| && 0 <= c <= |y| && r != i ==> table[r, c] == old(table[r, c])
      invariant forall c {:trigger table[i, c]} :: 0 <= c < j ==> table[i, c] == TableCell(x, y, i, c)
    {
      var v: uint8;
      if x[i - 1] == y[j - 1] {
        v := table[i - 1, j - 1];
      } else {
        var c1 := table[i - 1, j];
        var c2 := table[i, j - 1];
        var c3 := table[i - 1, j - 1];
        v := Increment(Min3(c1 as int, c2 as int, c3 as int) as uint8);
      }
      assert v == TableCell(x, y, i, j);
      table[i, j] := v;
      j := j + 1;
    }
  }

  /** A cell is 0 exactly when the two prefixes are equal: the border is 1
      away from the corner and a 0 only travels along matching diagonals. */
  lemma {:induction false} CellZeroIffEqual<T>(x: seq<T>, y: seq<T>, i: nat, j: nat)
    requires i <= |x| && j <= |y|
    ensures Cell(x, y, i, j) == 0 <==> x[..i] == y[..j]
    decreases i + j
  {
    if i == 0 || j == 0 {
    } else if x[i - 1] == y[j - 1] {
      CellZeroIffEqual(x, y, i - 1, j - 1);
      assert x[..i] == x[..i - 1] + [x[i - 1]];
      assert y[..j] == y[..j - 1] + [y[j - 1]];
      if x[..i] == y[..j] {
        assert x[..i - 1] == x[..i][..i - 1] && y[..j - 1] == y[..j][..j - 1];
      }
    } else {
      assert x[..i][i - 1] != y[..j][j - 1] || i != j;
    }
  }

  lemma DistanceZeroIffEqual<T>(x: seq<T>, y: seq<T>)
    ensures Distance(x, y) == 0 <==> x == y
  {
    CellZeroIffEqual(x, y, |x|, |y|);
    assert x[..|x|] == x && y[..|y|] == y;
  }

  /** Transposing the table: the recurrence and the border are symmetric. */
  lemma {:induction false} CellSymmetric<T>(x: seq<T>, y: seq<T>, i: nat, j: nat)
    requires i <= |x| && j <= |y|
    ensures Cell(x, y, i, j) == Cell(y, x, j, i)
    decreases i + j
  {
    if i > 0 && j > 0 {
      CellSymmetric(x, y, i - 1, j - 1);
      if x[i - 1] != y[j - 1] {
        CellSymmetric(x, y, i - 1, j);
        CellSymmetric(x, y, i, j - 1);
      }
    }
  }

  lemma DistanceSymmetric<T>(x: seq<T>, y: seq<T>)
    ensures Distance(x, y) == Distance(y, x)
  {
    CellSymmetric(x, y, |x|, |y|);
  }

  /** Every cell is at most the larger of its two indices. */
  lemma {:induction false} CellAtMostMax<T>(x: seq<T>, y: seq<T>, i: nat, j: nat)
    requires i <= |x| && j <= |y|
    ensures Cell(x, y, i, j) <= Max(i, j)
    decreases i + j
  {
    if i > 0 && j > 0 {
      CellAtMostMax(x, y, i - 1, j - 1);
    }
  }

  lemma DistanceAtMostMax<T>(x: seq<T>, y: seq<T>)
    ensures Distance(x, y) <= Max(|x|, |y|)
  {
    CellAtMostMax(x, y, |x|, |y|);
  }

  /** Where no cell up to (i, j) exceeds 255, the `uint8` table holds the
      intended values. */
  lemma {:induction false} TableCellAgrees<T>(x: seq<T>, y: seq<T>, i: nat, j: nat)
    requires i <= |x| && j <= |y|
    requires forall a, b :: 0 <= a <= i && 0 <= b <= j ==> Cell(x, y, a, b) <= 255
    ensures TableCell(x, y, i, j) as int == Cell(x, y, i, j)
    decreases i + j
  {
    if i > 0 && j > 0 {
      TableCellAgrees(x, y, i - 1, j - 1);
      if x[i - 1] != y[j - 1] {
        TableCellAgrees(x, y, i - 1, j);
        TableCellAgrees(x, y, i, j - 1);
        var m := Min3(Cell(x, y, i - 1, j), Cell(x, y, i, j - 1), Cell(x, y, i - 1, j - 1));
        assert Cell(x, y, i, j) == m + 1 <= 255;
        assert TableCell(x, y, i, j) == Increment(m as uint8);
      }
    }
  }

  /** Up to row and column 255 the table never wraps. */
  lemma TableCellFits<T>(x: seq<T>, y: seq<T>, i: nat, j: nat)
    requires i <= |x| && j <= |y| && i <= 255 && j <= 255
    ensures TableCell(x, y, i, j) as int == Cell(x, y, i, j)
  {
    forall a, b | 0 <= a <= i && 0 <= b <= j
      ensures Cell(x, y, a, b) <= 255
    {
      CellAtMostMax(x, y, a, b);
    }
    TableCellAgrees(x, y, i, j);
  }

  /** With both sequences at most 255 labels long the table never wraps. */
  lemma DistanceFitsTable<T>(x: seq<T>, y: seq<T>)
    requires |x| <= 255 && |y| <= 255
    ensures WrappedDistance(x, y) as int == Distance(x, y)
  {
    TableCellFits(x, y, |x|, |y|);
  }

  /** When no label of x occurs in y, cell (i, j) away from the border is
      min(i, j), plus one off the diagonal. */
  lemma {:induction false} CellOfDisjoint<T>(x: seq<T>, y: seq<T>, i: nat, j: nat)
    requires i <= |x| && j <= |y|
    requires forall a, b :: 0 <= a < |x| && 0 <= b < |y| ==> x[a] != y[b]
    ensures i > 0 && j > 0 ==> Cell(x, y, i, j) == (if i < j then i else j) + (if i == j then 0 else 1)
    decreases i + j
  {
    if i > 0 && j > 0 {
      CellOfDisjoint(x, y, i - 1, j - 1);
      CellOfDisjoint(x, y, i - 1, j);
      CellOfDisjoint(x, y, i, j - 1);
    }
  }

  /** For 255 labels against 256 labels none of which occurs in the first
      sequence, cell (255, 256) is computed as 255 + 1 and wraps to 0. */
  lemma WrapsAt255By256<T>(x: seq<T>, y: seq<T>)
    requires |x| == 255 && |y| == 256
    requires forall a, b :: 0 <= a < |x| && 0 <= b < |y| ==> x[a] != y[b]
    ensures WrappedDistance(x, y) == 0 && Distance(x, y) == 256
  {
    DisjointCellsBelow256(x, y);
    LowerBlockFits(x, y);
    LastCellWraps(x, y);
    CellOfDisjoint(x, y, 255, 256);
  }

  lemma LastCellWraps<T>(x: seq<T>, y: seq<T>)
    requires |x| == 255 && |y| == 256 && x[254] != y[255]
    requires TableCell(x, y, 254, 256) == 255 && TableCell(x, y, 255, 255) == 255
    requires TableCell(x, y, 254, 255) == 255
    ensures WrappedDistance(x, y) == 0
  {
    assert TableCell(x, y, 255, 256) == Increment(255);
  }

  lemma DisjointCellsBelow256<T>(x: seq<T>, y: seq<T>)
    requires |x| == 255 && |y| == 256
    requires forall a, b :: 0 <= a < |x| && 0 <= b < |y| ==> x[a] != y[b]
    ensures TableCell(x, y, 254, 256) == 255
  {
    forall a, b | 0 <= a <= 254 && 0 <= b <= 256
      ensures Cell(x, y, a, b) <= 255
    {
      CellOfDisjoint(x, y, a, b);
    }
    TableCellAgrees(x, y, 254, 256);
    CellOfDisjoint(x, y, 254, 256);
  }

  lemma LowerBlockFits<T>(x: seq<T>, y: seq<T>)
    requires |x| == 255 && |y| == 256
    requires forall a, b :: 0 <= a < |x| && 0 <= b < |y| ==> x[a] != y[b]
    ensures TableCell(x, y, 255, 255) == 255 && TableCell(x, y, 254, 255) == 255
  {
    TableCellFits(x, y, 255, 255);
    TableCellFits(x, y, 254, 255);
    CellOfDisjoint(x, y, 255, 255);
    CellOfDisjoint(x, y, 254, 255);
  }

  /** The script's table wraps: 255 copies of "a" against 256 copies of "b"
      yields 0, as if the hypothesis were correct. */
  lemma WrappedDistanceCounterexample()
    ensures var x := seq(255, _ => "a"); var y := seq(256, _ => "b");
            x != y && WrappedDistance(x, y) == 0 && Distance(x, y) == 256
  {
    var x: seq<string> := seq(255, _ => "a");
    var y: seq<string> := seq(256, _ => "b");
    assert |x| != |y|;
    WrapsAt255By256(x, y);
  }

  /** `score(gold, hypo)`: the number of edits and the gold length; the
      length does not depend on the hypothesis, and no edit is counted
      exactly when the hypothesis is the gold sequence. */
  function Score<T(==)>(gold: seq<T>, hypo: seq<T>): (r: (nat, nat))
    ensures r.1 == |gold|
    ensures r.0 == 0 <==> gold == hypo
    ensures r.0 <= Max(|gold|, |hypo|)
    ensures r.0 == Distance(hypo, gold)
  {
    DistanceZeroIffEqual(gold, hypo);
    DistanceAtMostMax(gold, hypo);
    DistanceSymmetric(gold, hypo);
    (Distance(gold, hypo), |gold|)
  }

  /** Unpacking `line.split("\t", 1)` into two names fails without a tab. */
  datatype LineError = MissingTab

  /** One step of `tsv_reader`: split at the first tab only, right-strip the
      hypothesis, split both halves on whitespace. All non-whitespace text
      of the line survives, divided at the first tab, each half is cut into
      its maximal runs of non-whitespace, and a hypothesis field of
      whitespace only gives no labels. */
  function ParseLine(line: string): (r: Result<(seq<string>, seq<string>), LineError>)
    ensures r.Failure? <==> '\t' !in line
    ensures r.Success? ==>
      var (gold, hypo) := SplitOnce(line, '\t').value;
      && SplitsInto(gold, r.value.0)
      && SplitsInto(hypo, r.value.1)
      && Concat(r.value.0) == NonSpace(gold)
      && Concat(r.value.1) == NonSpace(hypo)
      && (r.value.1 == [] <==> AllSpace(hypo))
    ensures r.Success? ==> Concat(r.value.0) + Concat(r.value.1) == NonSpace(line)
  {
    match SplitOnce(line, '\t')
    case None => Failure(MissingTab)
    case Some((gold, hypo)) =>
      ParseLineFacts(line, gold, hypo);
      Success((Words(gold), Words(RStrip(hypo))))
  }

  lemma ParseLineFacts(line: string, gold: string, hypo: string)
    requires line == gold + "\t" + hypo
    ensures SplitsInto(gold, Words(gold)) && SplitsInto(hypo, Words(RStrip(hypo)))
    ensures Concat(Words(gold)) == NonSpace(gold)
    ensures Concat(Words(RStrip(hypo))) == NonSpace(hypo)
    ensures Words(RStrip(hypo)) == [] <==> AllSpace(hypo)
    ensures NonSpace(gold) + NonSpace(hypo) == NonSpace(line)
  {
    WordsKeepNonSpace(gold);
    WordsIgnoreRStrip(hypo);
    SplitsIntoWords(gold, Words(gold));
    SplitsIntoWords(hypo, Words(hypo));
    WordsKeepNonSpace(hypo);
    WordsEmptyIffAllSpace(hypo);
    NonSpaceAroundTab(gold, hypo);
  }

  lemma NonSpaceAroundTab(gold: string, hypo: string)
    ensures NonSpace(gold + "\t" + hypo) == NonSpace(gold) + NonSpace(hypo)
  {
    var tab := "\t";
    NonSpaceAppend(gold + tab, hypo);
    NonSpaceAppend(gold, tab);
    assert IsSpace(tab[0]) && tab[1..] == [];
    assert NonSpace(tab) == [];
  }

  /** `tsv_reader` over the lines of a file, consumed in full as
      `pool.starmap` does: the first line without a tab aborts the run. */
  function TsvReader(lines: seq<string>): (r: Result<seq<(seq<string>, seq<string>)>, LineError>)
    ensures r.Failure? <==> exists k :: 0 <= k < |lines| && '\t' !in lines[k]
    ensures r.Success? ==> |r.value| == |lines|
    ensures r.Success? ==> forall k :: 0 <= k < |lines| ==> ParseLine(lines[k]) == Success(r.value[k])
  {
    var r := Collect(lines, ParseLine);
    assert r.Success? <==> forall k :: 0 <= k < |lines| ==> ParseLine(lines[k]).Success?;
    r
  }
}
