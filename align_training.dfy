/** Stage two of the pair n-gram aligner (task1/baselines/fst/align.py,
    `_alignments` and `_random_start`): the conditional list of training
    options, the table of random starts, the per-start file names and the
    choice of the best start. The random sample and the external trainer are
    inputs. */
module AlignTraining {
  import opened Wrappers
  import opened Format

  /** `RAND_MAX`: seeds are drawn from `range(1, RAND_MAX)`, that is 1..32766. */
  const RandMax: nat := 32767

  // ---------------------------------------------------------------------
  // Training options.

  /** The optional arguments of `_alignments`; `None` and zero are both
      falsy, as is the empty string. */
  datatype TrainArgs = TrainArgs(
    batchSize: Option<int>, delta: Option<real>, lr: Option<real>, maxIters: Option<int>,
    cacheGc: string, cacheGcLimit: string)

  datatype TrainOpt =
    | BatchSize(count: int)
    | Delta(amount: real)
    | CacheGc(text: string)
    | CacheGcLimit(text: string)
    | Lr(amount: real)
    | MaxIters(count: int)

  /** The position of each option in the command line. */
  function Rank(o: TrainOpt): nat {
    match o
    case BatchSize(_) => 0
    case Delta(_) => 1
    case CacheGc(_) => 2
    case CacheGcLimit(_) => 3
    case Lr(_) => 4
    case MaxIters(_) => 5
  }

  predicate IntTruthy(v: Option<int>) {
    v.Some? && v.value != 0
  }

  predicate RealTruthy(v: Option<real>) {
    v.Some? && v.value != 0.0
  }

  /** Whether `args` asks for option `o`: its argument is truthy and `o`
      carries that argument's value. */
  predicate Requested(args: TrainArgs, o: TrainOpt) {
    match o
    case BatchSize(n) => IntTruthy(args.batchSize) && n == args.batchSize.value
    case Delta(d) => RealTruthy(args.delta) && d == args.delta.value
    case CacheGc(s) => args.cacheGc != "" && s == args.cacheGc
    case CacheGcLimit(s) => args.cacheGcLimit != "" && s == args.cacheGcLimit
    case Lr(x) => RealTruthy(args.lr) && x == args.lr.value
    case MaxIters(n) => IntTruthy(args.maxIters) && n == args.maxIters.value
  }

  predicate RankSorted(opts: seq<TrainOpt>) {
    forall i, j :: 0 <= i < j < |opts| ==> Rank(opts[i]) < Rank(opts[j])
  }

  /** The option of rank `rank`, if `args` asks for it. */
  function Slot(args: TrainArgs, rank: nat): seq<TrainOpt> {
    if rank == 0 && IntTruthy(args.batchSize) then [BatchSize(args.batchSize.value)]
    else if rank == 1 && RealTruthy(args.delta) then [Delta(args.delta.value)]
    else if rank == 2 && args.cacheGc != "" then [CacheGc(args.cacheGc)]
    else if rank == 3 && args.cacheGcLimit != "" then [CacheGcLimit(args.cacheGcLimit)]
    else if rank == 4 && RealTruthy(args.lr) then [Lr(args.lr.value)]
    else if rank == 5 && IntTruthy(args.maxIters) then [MaxIters(args.maxIters.value)]
    else []
  }

  /** The requested options of rank below `n`, in rank order. */
  function Slots(args: TrainArgs, n: nat): seq<TrainOpt> {
    if n == 0 then [] else Slots(args, n - 1) + Slot(args, n - 1)
  }

  /** A slot holds at most the one option of its rank, and holds it exactly
      when it is requested. */
  lemma SlotMembers(args: TrainArgs, rank: nat)
    ensures |Slot(args, rank)| <= 1
    ensures forall o :: o in Slot(args, rank) <==> Requested(args, o) && Rank(o) == rank
  {
  }

  /** The first `n` slots hold exactly the requested options of rank below
      `n`, in strictly increasing rank. */
  lemma {:induction false} SlotsFacts(args: TrainArgs, n: nat)
    ensures forall o :: o in Slots(args, n) <==> Requested(args, o) && Rank(o) < n
    ensures RankSorted(Slots(args, n))
  {
    if n > 0 {
      var init, last := Slots(args, n - 1), Slot(args, n - 1);
      SlotsFacts(args, n - 1);
      SlotMembers(args, n - 1);
      assert forall i :: 0 <= i < |init| ==> init[i] in init;
      assert forall i :: 0 <= i < |last| ==> last[i] in last;
    }
  }

  /** The `train_opts` list: exactly the requested options, each once, in
      the fixed order batch size, delta, cache gc, cache gc limit, learning
      rate, maximum iterations. */
  method TrainOpts(args: TrainArgs) returns (opts: seq<TrainOpt>)
    ensures opts == Slots(args, 6)
    ensures forall o :: o in opts <==> Requested(args, o)
    ensures RankSorted(opts)
  {
    opts := [];
    if IntTruthy(args.batchSize) {
      opts := opts + [BatchSize(args.batchSize.value)];
    }
    SlotsNext(args, 0);
    assert opts == Slots(args, 1);
    if RealTruthy(args.delta) {
      opts := opts + [Delta(args.delta.value)];
    }
    SlotsNext(args, 1);
    assert opts == Slots(args, 2);
    if args.cacheGc != "" {
      opts := opts + [CacheGc(args.cacheGc)];
    }
    SlotsNext(args, 2);
    assert opts == Slots(args, 3);
    if args.cacheGcLimit != "" {
      opts := opts + [CacheGcLimit(args.cacheGcLimit)];
    }
    SlotsNext(args, 3);
    assert opts == Slots(args, 4);
    if RealTruthy(args.lr) {
      opts := opts + [Lr(args.lr.value)];
    }
    SlotsNext(args, 4);
    assert opts == Slots(args, 5);
    if IntTruthy(args.maxIters) {
      opts := opts + [MaxIters(args.maxIters.value)];
    }
    SlotsNext(args, 5);
    assert opts == Slots(args, 6);
    SlotsFacts(args, 6);
  }

  lemma SlotsNext(args: TrainArgs, n: nat)
    ensures Slots(args, n + 1) == Slots(args, n) + Slot(args, n)
  {
  }

  /** The option list is determined by its elements: two rank-sorted lists
      with the same elements are equal. */
  lemma {:induction false} RankSortedUnique(a: seq<TrainOpt>, b: seq<TrainOpt>)
    requires RankSorted(a) && RankSorted(b)
    requires forall o :: o in a <==> o in b
    ensures a == b
    decreases |a|
  {
    if b != [] {
      assert b[0] in a;
    }
    if a != [] {
      HeadsAgree(a, b);
      TailsAgree(a, b);
      RankSortedUnique(a[1..], b[1..]);
      assert a == [a[0]] + a[1..];
      assert b == [b[0]] + b[1..];
    }
  }

  /** Two rank-sorted lists with the same elements start alike. */
  lemma HeadsAgree(a: seq<TrainOpt>, b: seq<TrainOpt>)
    requires RankSorted(a) && RankSorted(b) && a != []
    requires forall o :: o in a <==> o in b
    ensures b != [] && a[0] == b[0]
  {
    assert a[0] in b;
    var i :| 0 <= i < |b| && b[i] == a[0];
    assert b[0] in a;
    var j :| 0 <= j < |a| && a[j] == b[0];
    assert Rank(a[0]) <= Rank(a[j]);
    assert Rank(b[0]) <= Rank(b[i]);
  }

  /** Dropping the common head of two rank-sorted lists with the same
      elements leaves rank-sorted lists with the same elements. */
  lemma TailsAgree(a: seq<TrainOpt>, b: seq<TrainOpt>)
    requires RankSorted(a) && RankSorted(b) && a != [] && b != [] && a[0] == b[0]
    requires forall o :: o in a <==> o in b
    ensures RankSorted(a[1..]) && RankSorted(b[1..])
    ensures forall o :: o in a[1..] <==> o in b[1..]
  {
    forall o
      ensures o in a[1..] ==> o in b[1..]
    {
      if o in a[1..] {
        var k :| 0 <= k < |a[1..]| && a[1..][k] == o;
        assert Rank(a[0]) < Rank(a[k + 1]);
        assert a[k + 1] in a && o in b;
        var i :| 0 <= i < |b| && b[i] == o;
        assert b[1..][i - 1] == o;
      }
    }
    forall o
      ensures o in b[1..] ==> o in a[1..]
    {
      if o in b[1..] {
        var k :| 0 <= k < |b[1..]| && b[1..][k] == o;
        assert Rank(b[0]) < Rank(b[k + 1]);
        assert b[k + 1] in b && o in a;
        var i :| 0 <= i < |a| && a[i] == o;
        assert a[1..][i - 1] == o;
      }
    }
  }

  // ---------------------------------------------------------------------
  // Paths.

  /** `os.path.join(a, b)` for POSIX paths. */
  function Join(a: string, b: string): string {
    if b != [] && b[0] == '/' then b
    else if a == [] || a[|a| - 1] == '/' then a + b
    else a + "/" + b
  }

  /** Joining onto one directory is injective in relative names. */
  lemma JoinInjective(dir: string, b1: string, b2: string)
    requires b1 != [] && b1[0] != '/' && b2 != [] && b2[0] != '/'
    requires Join(dir, b1) == Join(dir, b2)
    ensures b1 == b2
  {
    var n := if dir == [] || dir[|dir| - 1] == '/' then |dir| else |dir| + 1;
    assert Join(dir, b1)[n..] == b1;
    assert Join(dir, b2)[n..] == b2;
  }

  /** The aligner's working files, `__init__`. */
  datatype Workspace = Workspace(tempdir: string)

  function GPath(w: Workspace): string { Join(w.tempdir, "g.far") }
  function PPath(w: Workspace): string { Join(w.tempdir, "p.far") }
  function CPath(w: Workspace): string { Join(w.tempdir, "c.fst") }
  function AlignPath(w: Workspace): string { Join(w.tempdir, "align.fst") }
  function AfstPath(w: Workspace): string { Join(w.tempdir, "afst.far") }

  /** One trial: `RandomStart`. */
  datatype RandomStart = RandomStart(
    idx: nat, seed: nat, gPath: string, pPath: string, cPath: string, tempdir: string,
    trainOpts: seq<TrainOpt>)

  /** `c-{seed:05d}.fst` and `t-{seed:05d}.fst`. */
  function SeedName(prefix: char, seed: nat): string {
    [prefix, '-'] + Decimal(seed, 5) + ".fst"
  }

  /** The randomized channel model of a trial, `c-{seed:05d}.fst` in the
      temporary directory: never the trial's trained model nor one of the
      aligner's working files. */
  function ChannelPath(rs: RandomStart): (p: string)
    ensures p != TrainedPath(rs)
    ensures var w := Workspace(rs.tempdir);
      p !in {GPath(w), PPath(w), CPath(w), AlignPath(w), AfstPath(w)}
  {
    SeedPathsDiffer(rs.tempdir, 'c', rs.seed, 't', rs.seed);
    SeedPathNotWorkspace(Workspace(rs.tempdir), 'c', rs.seed);
    Join(rs.tempdir, SeedName('c', rs.seed))
  }

  /** The trained model of a trial, `t-{seed:05d}.fst` in the temporary
      directory: never one of the aligner's working files. */
  function TrainedPath(rs: RandomStart): (p: string)
    ensures var w := Workspace(rs.tempdir);
      p !in {GPath(w), PPath(w), CPath(w), AlignPath(w), AfstPath(w)}
  {
    SeedPathNotWorkspace(Workspace(rs.tempdir), 't', rs.seed);
    Join(rs.tempdir, SeedName('t', rs.seed))
  }

  /** Two per-seed names agree only for the same prefix and the same seed. */
  lemma SeedNameInjective(p1: char, s1: nat, p2: char, s2: nat)
    requires SeedName(p1, s1) == SeedName(p2, s2)
    ensures p1 == p2 && s1 == s2
  {
    var n1, n2 := SeedName(p1, s1), SeedName(p2, s2);
    assert n1[0] == p1 && n2[0] == p2;
    var d1, d2 := Decimal(s1, 5), Decimal(s2, 5);
    assert |d1| == |d2|;
    assert d1 == n1[2..|n1| - 4];
    assert d2 == n2[2..|n2| - 4];
    DecimalRoundTrip(s1, 5);
    DecimalRoundTrip(s2, 5);
  }

  /** A per-seed name is never one of the aligner's own working files. */
  lemma SeedNameNotWorkspace(p: char, seed: nat)
    ensures SeedName(p, seed) !in {"g.far", "p.far", "c.fst", "align.fst", "afst.far"}
  {
    var n := SeedName(p, seed);
    assert n[1] == '-';
  }

  // ---------------------------------------------------------------------
  // Random starts.

  datatype TrainError =
    | SampleError     // `random.sample` with a negative size or more than 32766
    | TrialFailure    // a trainer call failed, so `pool.map` raises
    | NoTrials        // `min` of an empty list

  /** What `random.sample(range(1, RAND_MAX), r)` guarantees: `r` distinct
      values from 1..32766. */
  predicate IsSample(sample: seq<int>, r: nat) {
    && |sample| == r
    && (forall k :: 0 <= k < r ==> 1 <= sample[k] < RandMax)
    && (forall i, j :: 0 <= i < j < r ==> sample[i] != sample[j])
  }

  /** The `starts` list: trial `k` (from 1) gets the `k`-th sampled seed, the
      shared paths and the training options. */
  function Starts(w: Workspace, opts: seq<TrainOpt>, r: int, sample: seq<int>): (res: Result<seq<RandomStart>, TrainError>)
    requires 0 <= r < RandMax ==> IsSample(sample, r)
    ensures res.Failure? <==> r < 0 || r >= RandMax
    ensures res.Failure? ==> res.error == SampleError
    ensures res.Success? ==> |res.value| == r && forall k :: 0 <= k < r ==>
      res.value[k] == RandomStart(k + 1, sample[k], GPath(w), PPath(w), CPath(w), w.tempdir, opts)
  {
    if r < 0 || r >= RandMax then Failure(SampleError)
    else Success(seq(r, k requires 0 <= k < r =>
      RandomStart(k + 1, sample[k] as nat, GPath(w), PPath(w), CPath(w), w.tempdir, opts)))
  }

  /** Trials are numbered 1..r, carry distinct seeds from 1..32766, and so
      never share a channel or trained-model file with each other or with
      the aligner's working files. */
  lemma StartsCollisionFree(w: Workspace, opts: seq<TrainOpt>, r: int, sample: seq<int>)
    requires 0 <= r < RandMax && IsSample(sample, r)
    ensures var starts := Starts(w, opts, r, sample).value;
      && (forall k :: 0 <= k < r ==> starts[k].idx == k + 1 && 1 <= starts[k].seed < RandMax)
      && (forall i, j :: 0 <= i < r && 0 <= j < r && i != j ==>
            ChannelPath(starts[i]) != ChannelPath(starts[j]) && TrainedPath(starts[i]) != TrainedPath(starts[j]))
      && (forall i, j :: 0 <= i < r && 0 <= j < r ==> ChannelPath(starts[i]) != TrainedPath(starts[j]))
      && (forall k :: 0 <= k < r ==>
            ChannelPath(starts[k]) !in {GPath(w), PPath(w), CPath(w), AlignPath(w), AfstPath(w)} &&
            TrainedPath(starts[k]) !in {GPath(w), PPath(w), CPath(w), AlignPath(w), AfstPath(w)})
  {
    var starts := Starts(w, opts, r, sample).value;
    forall i, j | 0 <= i < r && 0 <= j < r
      ensures i != j ==> ChannelPath(starts[i]) != ChannelPath(starts[j])
      ensures i != j ==> TrainedPath(starts[i]) != TrainedPath(starts[j])
      ensures ChannelPath(starts[i]) != TrainedPath(starts[j])
    {
      if i != j {
        assert starts[i].seed != starts[j].seed;
        SeedPathsDiffer(w.tempdir, 'c', starts[i].seed, 'c', starts[j].seed);
        SeedPathsDiffer(w.tempdir, 't', starts[i].seed, 't', starts[j].seed);
      }
      SeedPathsDiffer(w.tempdir, 'c', starts[i].seed, 't', starts[j].seed);
    }
    forall k | 0 <= k < r
      ensures ChannelPath(starts[k]) !in {GPath(w), PPath(w), CPath(w), AlignPath(w), AfstPath(w)}
      ensures TrainedPath(starts[k]) !in {GPath(w), PPath(w), CPath(w), AlignPath(w), AfstPath(w)}
    {
      SeedPathNotWorkspace(w, 'c', starts[k].seed);
      SeedPathNotWorkspace(w, 't', starts[k].seed);
    }
  }

  lemma SeedPathsDiffer(dir: string, p1: char, s1: nat, p2: char, s2: nat)
    requires p1 != p2 || s1 != s2
    requires p1 != '/' && p2 != '/'
    ensures Join(dir, SeedName(p1, s1)) != Join(dir, SeedName(p2, s2))
  {
    if Join(dir, SeedName(p1, s1)) == Join(dir, SeedName(p2, s2)) {
      JoinInjective(dir, SeedName(p1, s1), SeedName(p2, s2));
      SeedNameInjective(p1, s1, p2, s2);
    }
  }

  lemma SeedPathNotWorkspace(w: Workspace, p: char, seed: nat)
    requires p != '/'
    ensures Join(w.tempdir, SeedName(p, seed)) !in {GPath(w), PPath(w), CPath(w), AlignPath(w), AfstPath(w)}
  {
    SeedNameNotWorkspace(p, seed);
    var n := SeedName(p, seed);
    forall b | b in ["g.far", "p.far", "c.fst", "align.fst", "afst.far"]
      ensures Join(w.tempdir, n) != Join(w.tempdir, b)
    {
      if Join(w.tempdir, n) == Join(w.tempdir, b) {
        JoinInjective(w.tempdir, n, b);
      }
    }
  }

  // ---------------------------------------------------------------------
  // Running the trials and picking the best.

  /** A negative log likelihood as parsed from the trainer; it stays
      infinite when the trainer prints no iteration line. */
  datatype Likelihood = Finite(value: real) | Infinity

  /** `<` on floats restricted to these values. */
  predicate Less(a: Likelihood, b: Likelihood) {
    a.Finite? && (b.Infinity? || a.value < b.value)
  }

  /** The external trainer for one start: its final likelihood, or None when
      `_random_start` raises: `baumwelchrandomize` exits non-zero, a stderr
      line of `baumwelchtrain` is not a likelihood line, or its number does
      not parse. The exit status of `baumwelchtrain` is never checked, so a
      failed training still gives a likelihood (infinity or the last one
      printed). */
  type Trainer = RandomStart -> Option<Likelihood>

  /** `_random_start`: the trained model's path and its likelihood. */
  function RunStart(train: Trainer, rs: RandomStart): (r: Result<(string, Likelihood), TrainError>)
    ensures r.Failure? <==> train(rs).None?
    ensures r.Success? ==> r.value == (TrainedPath(rs), train(rs).value)
  {
    match train(rs)
    case None => Failure(TrialFailure)
    case Some(l) => Success((TrainedPath(rs), l))
  }

  function Runner(train: Trainer): RandomStart -> Result<(string, Likelihood), TrainError> {
    (rs: RandomStart) => RunStart(train, rs)
  }

  /** `min(results, key=itemgetter(1))`: the index of the first result whose
      likelihood no other result beats. */
  function FirstMin(results: seq<(string, Likelihood)>): (k: nat)
    requires |results| > 0
    ensures k < |results|
    ensures forall j :: 0 <= j < |results| ==> !Less(results[j].1, results[k].1)
    ensures forall j :: 0 <= j < k ==> Less(results[k].1, results[j].1)
  {
    if |results| == 1 then 0
    else
      var k := FirstMin(results[..|results| - 1]);
      if Less(results[|results| - 1].1, results[k].1) then |results| - 1 else k
  }

  /** The first minimum is the only index with both properties. */
  lemma FirstMinUnique(results: seq<(string, Likelihood)>, k: nat)
    requires k < |results|
    requires forall j :: 0 <= j < |results| ==> !Less(results[j].1, results[k].1)
    requires forall j :: 0 <= j < k ==> Less(results[k].1, results[j].1)
    ensures k == FirstMin(results)
  {
    var m := FirstMin(results);
  }

  /** Trial `k` succeeded with a likelihood that no trial beats and that
      beats every earlier trial. */
  predicate IsFirstBest(starts: seq<RandomStart>, train: Trainer, k: nat)
    requires k < |starts| && forall j :: 0 <= j < |starts| ==> train(starts[j]).Some?
  {
    && (forall j :: 0 <= j < |starts| ==> !Less(train(starts[j]).value, train(starts[k]).value))
    && (forall j :: 0 <= j < k ==> Less(train(starts[k]).value, train(starts[j]).value))
  }

  /** The trials run in order (`pool.map`), then `min` over their results:
      a failed trial's error, no trial at all, or the first best result. */
  function BestOf(starts: seq<RandomStart>, train: Trainer): (r: Result<(string, Likelihood), TrainError>)
    ensures r.Failure? ==> r.error == (if starts == [] then NoTrials else TrialFailure)
    ensures r.Success? ==> starts != []
    ensures r.Success? ==>
      forall k :: 0 <= k < |starts| ==> train(starts[k]).Some? && !Less(train(starts[k]).value, r.value.1)
  {
    match Collect(starts, Runner(train))
    case Failure(e) => Failure(e)
    case Success(results) =>
      if results == [] then Failure(NoTrials) else Success(results[FirstMin(results)])
  }

  /** A failed trial fails the stage; otherwise no trials is an error and
      some trials give the first best one's trained model and likelihood. */
  lemma BestOfFacts(starts: seq<RandomStart>, train: Trainer)
    ensures (exists k :: 0 <= k < |starts| && train(starts[k]).None?) ==> BestOf(starts, train) == Failure(TrialFailure)
    ensures (forall k :: 0 <= k < |starts| ==> train(starts[k]).Some?) ==>
      && (starts == [] ==> BestOf(starts, train) == Failure(NoTrials))
      && (starts != [] ==> exists k :: (0 <= k < |starts| && IsFirstBest(starts, train, k) &&
            BestOf(starts, train) == Success((TrainedPath(starts[k]), train(starts[k]).value))))
  {
    var f := Runner(train);
    var c := Collect(starts, f);
    forall k | 0 <= k < |starts|
      ensures f(starts[k]) == RunStart(train, starts[k])
    {
    }
    if c.Failure? {
      var k :| 0 <= k < |starts| && f(starts[k]) == Failure(c.error);
      assert train(starts[k]).None?;
      assert c.error == TrialFailure;
    } else if c.value != [] {
      var results := c.value;
      var m := FirstMin(results);
      forall j | 0 <= j < |starts|
        ensures results[j] == (TrainedPath(starts[j]), train(starts[j]).value)
      {
      }
      assert IsFirstBest(starts, train, m);
    }
  }

  /** `_alignments` up to the choice of the best start: the option list, the
      sampled trials, all of them run, and the first best one. */
  function Alignment(args: TrainArgs, w: Workspace, r: int, sample: seq<int>, train: Trainer): Result<(string, Likelihood), TrainError>
    requires 0 <= r < RandMax ==> IsSample(sample, r)
  {
    match Starts(w, Slots(args, 6), r, sample)
    case Failure(e) => Failure(e)
    case Success(starts) => BestOf(starts, train)
  }

  /** A trial count outside the sampled range is a sampling error;
      otherwise the stage is the best of the `r` sampled trials, whose
      outcomes `BestOfFacts` states. */
  lemma AlignmentFacts(args: TrainArgs, w: Workspace, r: int, sample: seq<int>, train: Trainer)
    requires 0 <= r < RandMax ==> IsSample(sample, r)
    ensures (r < 0 || r >= RandMax) ==> Alignment(args, w, r, sample, train) == Failure(SampleError)
    ensures 0 <= r < RandMax ==>
      var starts := Starts(w, Slots(args, 6), r, sample);
      && starts.Success? && |starts.value| == r
      && Alignment(args, w, r, sample, train) == BestOf(starts.value, train)
  {
  }

  /** `_alignments` up to the choice of the best start, step by step. */
  method Alignments(args: TrainArgs, w: Workspace, r: int, sample: seq<int>, train: Trainer)
    returns (res: Result<(string, Likelihood), TrainError>)
    requires 0 <= r < RandMax ==> IsSample(sample, r)
    ensures res == Alignment(args, w, r, sample, train)
  {
    var opts := TrainOpts(args);
    var starts := Starts(w, opts, r, sample);
    if starts.Failure? {
      return Failure(starts.error);
    }
    var results := Collect(starts.value, Runner(train));
    if results.Failure? {
      return Failure(results.error);
    }
    if |results.value| == 0 {
      return Failure(NoTrials);
    }
    var k := FirstMin(results.value);
    res := Success(results.value[k]);
  }
}
