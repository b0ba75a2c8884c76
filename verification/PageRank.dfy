/** PageRank-lite over real numbers: the iteration of the repository map, its mass bound and its contraction. */
module PageRank {

  type Path = string

  /** A file and the files it imports. */
  datatype Import = Import(from: Path, targets: seq<Path>)

  const DAMPING: real := 0.85
  const ITERATIONS := 20

  /** The conversion through a 16-bit integer. */
  function Clamp(n: nat): real {
    if n <= 65535 then n as real else 65535.0
  }

  // ----- One iteration as a sum over the edges -----

  /** What a file of rank `r` gives to each of its targets. */
  function Share(r: real, targets: seq<Path>): real
    requires targets != []
  {
    DAMPING * r / Clamp(|targets|)
  }

  /** `share` once for every time `p` occurs. */
  function Received(targets: seq<Path>, p: Path, share: real): real {
    if targets == [] then 0.0
    else Received(targets[..|targets| - 1], p, share) + if targets[|targets| - 1] == p then share else 0.0
  }

  /** What `p` receives along all edges when file `f` has rank `z(f)`. */
  function Flow(imports: seq<Import>, z: Path -> real, p: Path): real {
    if imports == [] then 0.0 else
    var last := imports[|imports| - 1];
    Flow(imports[..|imports| - 1], z, p)
      + if last.targets == [] then 0.0 else Received(last.targets, p, Share(z(last.from), last.targets))
  }

  function Base(n: real): real
    requires n > 0.0
  {
    (1.0 - DAMPING) / n
  }

  /** The rank of a path, zero for one without an entry. */
  function RankOf(rank: map<Path, real>): Path -> real {
    p => if p in rank then rank[p] else 0.0
  }

  function Step(files: seq<Path>, imports: seq<Import>, rank: map<Path, real>): map<Path, real>
    requires files != []
  {
    map p | p in files :: Base(Clamp(|files|)) + Flow(imports, RankOf(rank), p)
  }

  function Ranks(files: seq<Path>, imports: seq<Import>, k: nat): map<Path, real>
    requires files != []
  {
    if k == 0 then map p | p in files :: 1.0 / Clamp(|files|)
    else Step(files, imports, Ranks(files, imports, k - 1))
  }

  // ----- Sums -----

  ghost predicate Distinct(files: seq<Path>) {
    forall i, j :: 0 <= i < j < |files| ==> files[i] != files[j]
  }

  ghost predicate DistinctSources(imports: seq<Import>) {
    forall i, j :: 0 <= i < j < |imports| ==> imports[i].from != imports[j].from
  }

  function Sum(files: seq<Path>, f: Path -> real): real {
    if files == [] then 0.0 else f(files[0]) + Sum(files[1..], f)
  }

  ghost predicate NonNegative(z: Path -> real) {
    forall p :: z(p) >= 0.0
  }

  lemma {:induction false} SumAdds(files: seq<Path>, f: Path -> real, g: Path -> real, h: Path -> real)
    requires forall p :: h(p) == f(p) + g(p)
    ensures Sum(files, h) == Sum(files, f) + Sum(files, g)
  {
    if files != [] {
      SumAdds(files[1..], f, g, h);
    }
  }

  lemma {:induction false} SumBounds(files: seq<Path>, f: Path -> real, g: Path -> real)
    requires forall p :: p in files ==> f(p) <= g(p)
    ensures Sum(files, f) <= Sum(files, g)
  {
    if files != [] {
      SumBounds(files[1..], f, g);
    }
  }

  function Times(n: nat, c: real): real {
    n as real * c
  }

  lemma Distribute(n: nat, c: real)
    ensures Times(0, c) == 0.0
    ensures Times(n + 1, c) == Times(n, c) + c
  {}

  lemma {:induction false} SumConstant(files: seq<Path>, f: Path -> real, c: real)
    requires forall p :: p in files ==> f(p) == c
    ensures Sum(files, f) == Times(|files|, c)
  {
    hide Times;
    if files == [] {
      Distribute(0, c);
    } else {
      SumConstant(files[1..], f, c);
      Distribute(|files[1..]|, c);
    }
  }

  /** A function that is `c` at one path and zero elsewhere. */
  lemma {:induction false} SumSpike(files: seq<Path>, t: Path, c: real, f: Path -> real)
    requires Distinct(files) && c >= 0.0
    requires forall p :: f(p) == if p == t then c else 0.0
    ensures 0.0 <= Sum(files, f) <= c
    ensures t !in files ==> Sum(files, f) == 0.0
  {
    if files != [] {
      assert forall i :: 0 <= i < |files[1..]| ==> files[1..][i] == files[i + 1];
      SumSpike(files[1..], t, c, f);
    }
  }

  // ----- The edges neither create nor multiply rank -----

  /** All files together receive from one source at most what it gives out. */
  lemma {:induction false} ReceivedTotal(files: seq<Path>, targets: seq<Path>, share: real, f: Path -> real)
    requires Distinct(files) && share >= 0.0
    requires forall p :: f(p) == Received(targets, p, share)
    ensures Sum(files, f) <= Times(|targets|, share)
  {
    hide Times, Sum, Distinct;
    if targets == [] {
      SumConstant(files, f, 0.0);
      Distribute(0, share);
      ZeroTimes(|files|);
    } else {
      var init, t := targets[..|targets| - 1], targets[|targets| - 1];
      var g := p => Received(init, p, share);
      var h := p => if p == t then share else 0.0;
      SumAdds(files, g, h, f);
      ReceivedTotal(files, init, share, g);
      SumSpike(files, t, share, h);
      Distribute(|init|, share);
    }
  }

  lemma ZeroTimes(n: nat)
    ensures Times(n, 0.0) == 0.0
  {}

  lemma ShareTotal(r: real, targets: seq<Path>)
    requires 0 < |targets| <= 65535 && r >= 0.0
    ensures Share(r, targets) >= 0.0
    ensures Times(|targets|, Share(r, targets)) == DAMPING * r
  {
    var n := |targets| as real;
    assert n > 0.0;
    assert n * (DAMPING * r / n) == DAMPING * r;
  }

  ghost predicate DegreesFit(imports: seq<Import>) {
    forall i :: 0 <= i < |imports| ==> |imports[i].targets| <= 65535
  }

  /** The ranks of the importing files, summed. */
  function SourceSum(imports: seq<Import>, z: Path -> real): real {
    if imports == [] then 0.0
    else SourceSum(imports[..|imports| - 1], z) + z(imports[|imports| - 1].from)
  }

  lemma {:induction false} FlowTotal(files: seq<Path>, imports: seq<Import>, z: Path -> real, f: Path -> real)
    requires Distinct(files) && DegreesFit(imports) && NonNegative(z)
    requires forall p :: f(p) == Flow(imports, z, p)
    ensures Sum(files, f) <= DAMPING * SourceSum(imports, z)
  {
    if imports == [] {
      SumConstant(files, f, 0.0);
    } else {
      var init, last := imports[..|imports| - 1], imports[|imports| - 1];
      var g := p => Flow(init, z, p);
      var h := p => if last.targets == [] then 0.0 else Received(last.targets, p, Share(z(last.from), last.targets));
      SumAdds(files, g, h, f);
      FlowTotal(files, init, z, g);
      OneSource(files, last, z, h);
    }
  }

  lemma OneSource(files: seq<Path>, last: Import, z: Path -> real, h: Path -> real)
    requires Distinct(files) && |last.targets| <= 65535 && z(last.from) >= 0.0
    requires forall p :: h(p) == if last.targets == [] then 0.0
             else Received(last.targets, p, Share(z(last.from), last.targets))
    ensures Sum(files, h) <= DAMPING * z(last.from)
  {
    if last.targets == [] {
      SumConstant(files, h, 0.0);
    } else {
      var share := Share(z(last.from), last.targets);
      ShareTotal(z(last.from), last.targets);
      ReceivedTotal(files, last.targets, share, h);
    }
  }

  /** The importing files are distinct, so they hold no more rank than all files. */
  lemma {:induction false} SourcesBound(files: seq<Path>, imports: seq<Import>, z: Path -> real)
    requires DistinctSources(imports) && NonNegative(z)
    requires forall p :: p !in files ==> z(p) == 0.0
    ensures SourceSum(imports, z) <= Sum(files, z)
    decreases |files|
  {
    if files == [] {
      NoSource(imports, z);
    } else {
      var p := files[0];
      var z' := q => if q == p then 0.0 else z(q);
      SourceSumWithout(imports, z, p, z');
      SourcesBound(files[1..], imports, z');
      SumBounds(files[1..], z', z);
    }
  }

  lemma {:induction false} NoSource(imports: seq<Import>, z: Path -> real)
    requires forall p :: z(p) == 0.0
    ensures SourceSum(imports, z) == 0.0
  {
    if imports != [] {
      NoSource(imports[..|imports| - 1], z);
    }
  }

  lemma {:induction false} SourceSumWithout(imports: seq<Import>, z: Path -> real, p: Path, z': Path -> real)
    requires DistinctSources(imports) && NonNegative(z)
    requires forall q :: z'(q) == if q == p then 0.0 else z(q)
    ensures SourceSum(imports, z) <= SourceSum(imports, z') + z(p)
    ensures (forall i :: 0 <= i < |imports| ==> imports[i].from != p) ==>
            SourceSum(imports, z) == SourceSum(imports, z')
  {
    if imports != [] {
      var init := imports[..|imports| - 1];
      assert forall i :: 0 <= i < |init| ==> init[i] == imports[i];
      SourceSumWithout(init, z, p, z');
    }
  }

  /** One round of flow keeps at most the damped share of the total. */
  lemma FlowContracts(files: seq<Path>, imports: seq<Import>, z: Path -> real, f: Path -> real)
    requires Distinct(files) && DistinctSources(imports) && DegreesFit(imports) && NonNegative(z)
    requires forall p :: p !in files ==> z(p) == 0.0
    requires forall p :: f(p) == Flow(imports, z, p)
    ensures Sum(files, f) <= DAMPING * Sum(files, z)
  {
    FlowTotal(files, imports, z, f);
    SourcesBound(files, imports, z);
  }

  // ----- Every iteration -----

  function Total(files: seq<Path>, rank: map<Path, real>): real {
    Sum(files, RankOf(rank))
  }

  lemma {:induction false} ReceivedPositive(targets: seq<Path>, p: Path, share: real)
    requires share >= 0.0
    ensures Received(targets, p, share) >= 0.0
    ensures p !in targets ==> Received(targets, p, share) == 0.0
  {
    if targets != [] {
      ReceivedPositive(targets[..|targets| - 1], p, share);
    }
  }

  lemma {:induction false} FlowPositive(imports: seq<Import>, z: Path -> real, p: Path)
    requires NonNegative(z)
    ensures Flow(imports, z, p) >= 0.0
    ensures (forall i :: 0 <= i < |imports| ==> p !in imports[i].targets) ==> Flow(imports, z, p) == 0.0
  {
    if imports != [] {
      var last := imports[|imports| - 1];
      FlowPositive(imports[..|imports| - 1], z, p);
      if last.targets != [] {
        SharePositive(z(last.from), last.targets);
        ReceivedPositive(last.targets, p, Share(z(last.from), last.targets));
      }
    }
  }

  lemma SharePositive(r: real, targets: seq<Path>)
    requires targets != [] && r >= 0.0
    ensures Share(r, targets) >= 0.0
  {}

  lemma BaseTimes(n: nat)
    requires 0 < n <= 65535
    ensures Times(n, Base(Clamp(n))) == 1.0 - DAMPING
    ensures Times(n, 1.0 / Clamp(n)) == 1.0
    ensures 0.0 < Base(Clamp(n)) <= 1.0 / Clamp(n)
  {
    var x := n as real;
    assert x * ((1.0 - DAMPING) / x) == 1.0 - DAMPING && x * (1.0 / x) == 1.0;
  }

  lemma StepAt(files: seq<Path>, imports: seq<Import>, rank: map<Path, real>, p: Path)
    requires files != []
    ensures RankOf(Step(files, imports, rank))(p)
         == if p in files then Base(Clamp(|files|)) + Flow(imports, RankOf(rank), p) else 0.0
  {}

  lemma StepTotal(files: seq<Path>, imports: seq<Import>, rank: map<Path, real>)
    requires 0 < |files| <= 65535
    requires Distinct(files) && DistinctSources(imports) && DegreesFit(imports)
    requires NonNegative(RankOf(rank)) && forall p :: p in rank ==> p in files
    ensures Total(files, Step(files, imports, rank)) <= 1.0 - DAMPING + DAMPING * Total(files, rank)
  {
    hide Flow, Base, Step, Sum, DistinctSources;
    var base, f := (p => Base(Clamp(|files|))), (p => Flow(imports, RankOf(rank), p));
    var both := p => Base(Clamp(|files|)) + Flow(imports, RankOf(rank), p);
    BaseTimes(|files|);
    FlowContracts(files, imports, RankOf(rank), f);
    SumConstant(files, base, Base(Clamp(|files|)));
    SumAdds(files, base, f, both);
    forall p | p in files
      ensures RankOf(Step(files, imports, rank))(p) <= both(p)
    {
      StepAt(files, imports, rank, p);
    }
    SumBounds(files, RankOf(Step(files, imports, rank)), both);
  }

  /** Rank is bounded below by the base and sums to at most one, however the files import each other. */
  lemma {:induction false} RanksBounded(files: seq<Path>, imports: seq<Import>, k: nat)
    requires 0 < |files| <= 65535
    requires Distinct(files) && DistinctSources(imports) && DegreesFit(imports)
    ensures forall p :: p in files <==> p in Ranks(files, imports, k)
    ensures forall p :: p in files ==> Ranks(files, imports, k)[p] >= Base(Clamp(|files|)) > 0.0
    ensures Total(files, Ranks(files, imports, k)) <= 1.0
  {
    hide Distinct, DistinctSources, Flow, Base;
    BaseTimes(|files|);
    if k == 0 {
      SumConstant(files, RankOf(Ranks(files, imports, 0)), 1.0 / Clamp(|files|));
    } else {
      var rank := Ranks(files, imports, k - 1);
      RanksBounded(files, imports, k - 1);
      StepTotal(files, imports, rank);
      forall p | p in files
        ensures Flow(imports, RankOf(rank), p) >= 0.0
      {
        FlowPositive(imports, RankOf(rank), p);
      }
    }
  }

  /** A file nobody imports has exactly the base rank from the first iteration on. */
  lemma UnimportedHasBase(files: seq<Path>, imports: seq<Import>, k: nat, p: Path)
    requires 0 < |files| <= 65535
    requires Distinct(files) && DistinctSources(imports) && DegreesFit(imports)
    requires k > 0 && p in files
    requires forall i :: 0 <= i < |imports| ==> p !in imports[i].targets
    ensures Ranks(files, imports, k)[p] == Base(Clamp(|files|))
  {
    RanksBounded(files, imports, k - 1);
    FlowPositive(imports, RankOf(Ranks(files, imports, k - 1)), p);
  }

  // ----- Contraction -----

  function Abs(x: real): real { if x < 0.0 then -x else x }

  function Gap(x: map<Path, real>, y: map<Path, real>): Path -> real {
    p => Abs(RankOf(x)(p) - RankOf(y)(p))
  }

  function Distance(files: seq<Path>, x: map<Path, real>, y: map<Path, real>): real {
    Sum(files, Gap(x, y))
  }

  lemma {:induction false} ReceivedGap(targets: seq<Path>, p: Path, a: real, b: real)
    ensures Abs(Received(targets, p, a) - Received(targets, p, b)) <= Received(targets, p, Abs(a - b))
  {
    if targets != [] {
      ReceivedGap(targets[..|targets| - 1], p, a, b);
    }
  }

  lemma ShareGap(a: real, b: real, targets: seq<Path>)
    requires targets != []
    ensures Abs(Share(a, targets) - Share(b, targets)) == Share(Abs(a - b), targets)
  {
    var n := Clamp(|targets|);
    assert DAMPING * a / n - DAMPING * b / n == DAMPING * (a - b) / n;
    assert DAMPING * (b - a) / n == -(DAMPING * (a - b) / n);
    SharePositive(Abs(a - b), targets);
  }

  lemma {:induction false} FlowGap(imports: seq<Import>, x: Path -> real, y: Path -> real, z: Path -> real, p: Path)
    requires forall q :: z(q) == Abs(x(q) - y(q))
    ensures Abs(Flow(imports, x, p) - Flow(imports, y, p)) <= Flow(imports, z, p)
  {
    hide Share;
    if imports != [] {
      var last := imports[|imports| - 1];
      FlowGap(imports[..|imports| - 1], x, y, z, p);
      if last.targets != [] {
        ReceivedGap(last.targets, p, Share(x(last.from), last.targets), Share(y(last.from), last.targets));
        ShareGap(x(last.from), y(last.from), last.targets);
      }
    }
  }

  lemma GapFacts(files: seq<Path>, x: map<Path, real>, y: map<Path, real>)
    requires forall p :: p in x || p in y ==> p in files
    ensures NonNegative(Gap(x, y)) && forall p :: p !in files ==> Gap(x, y)(p) == 0.0
  {
    forall p
      ensures Gap(x, y)(p) >= 0.0 && (p !in files ==> Gap(x, y)(p) == 0.0)
    {
      assert Gap(x, y)(p) == Abs(RankOf(x)(p) - RankOf(y)(p));
    }
  }

  /** One iteration brings any two rankings closer by the damping factor. */
  lemma StepContracts(files: seq<Path>, imports: seq<Import>, x: map<Path, real>, y: map<Path, real>)
    requires 0 < |files| <= 65535
    requires Distinct(files) && DistinctSources(imports) && DegreesFit(imports)
    requires forall p :: p in x || p in y ==> p in files
    ensures Distance(files, Step(files, imports, x), Step(files, imports, y)) <= DAMPING * Distance(files, x, y)
  {
    hide Flow, Base, Step, Sum, DistinctSources, Distinct, DegreesFit;
    var z := Gap(x, y);
    var f := p => Flow(imports, z, p);
    var x', y' := Step(files, imports, x), Step(files, imports, y);
    forall p | p in files
      ensures Gap(x', y')(p) <= f(p)
    {
      StepAt(files, imports, x, p);
      StepAt(files, imports, y, p);
      FlowGap(imports, RankOf(x), RankOf(y), z, p);
    }
    SumBounds(files, Gap(x', y'), f);
    GapFacts(files, x, y);
    FlowContracts(files, imports, z, f);
  }

  function Power(d: real, k: nat): real {
    if k == 0 then 1.0 else d * Power(d, k - 1)
  }

  /** Whatever ranking the iteration leaves fixed, it is approached geometrically. */
  lemma {:induction false} RanksConverge(files: seq<Path>, imports: seq<Import>, fixed: map<Path, real>, k: nat)
    requires 0 < |files| <= 65535
    requires Distinct(files) && DistinctSources(imports) && DegreesFit(imports)
    requires Step(files, imports, fixed) == fixed
    ensures Distance(files, Ranks(files, imports, k), fixed)
         <= Power(DAMPING, k) * Distance(files, Ranks(files, imports, 0), fixed)
  {
    hide Distance, Step, Distinct, DistinctSources;
    if k > 0 {
      var before, start := Distance(files, Ranks(files, imports, k - 1), fixed),
        Distance(files, Ranks(files, imports, 0), fixed);
      RanksConverge(files, imports, fixed, k - 1);
      RanksBounded(files, imports, k - 1);
      StepKeys(files, imports, fixed);
      StepContracts(files, imports, Ranks(files, imports, k - 1), fixed);
      assert DAMPING * before <= DAMPING * (Power(DAMPING, k - 1) * start);
      Scale(Power(DAMPING, k - 1), start);
    }
  }

  lemma StepKeys(files: seq<Path>, imports: seq<Import>, rank: map<Path, real>)
    requires files != []
    ensures forall p :: p in Step(files, imports, rank) ==> p in files
  {}

  lemma Scale(a: real, b: real)
    ensures DAMPING * (a * b) == (DAMPING * a) * b
  {}

  lemma {:induction false} SumZero(files: seq<Path>, f: Path -> real, p: Path)
    requires NonNegative(f) && Sum(files, f) <= 0.0 && p in files
    ensures f(p) == 0.0
  {
    SumPositive(files[1..], f);
    if p != files[0] {
      assert files == [files[0]] + files[1..];
      SumZero(files[1..], f, p);
    }
  }

  lemma {:induction false} SumPositive(files: seq<Path>, f: Path -> real)
    requires NonNegative(f)
    ensures Sum(files, f) >= 0.0
  {
    if files != [] {
      SumPositive(files[1..], f);
    }
  }

  /** The iteration leaves at most one ranking fixed. */
  lemma FixedIsUnique(files: seq<Path>, imports: seq<Import>, x: map<Path, real>, y: map<Path, real>)
    requires 0 < |files| <= 65535
    requires Distinct(files) && DistinctSources(imports) && DegreesFit(imports)
    requires Step(files, imports, x) == x && Step(files, imports, y) == y
    ensures x == y
  {
    hide Step, Sum, Distinct, DistinctSources, DegreesFit;
    StepKeys(files, imports, x);
    StepKeys(files, imports, y);
    StepContracts(files, imports, x, y);
    var z := Gap(x, y);
    GapFacts(files, x, y);
    SumPositive(files, z);
    assert Sum(files, z) <= 0.0;
    forall p | p in files
      ensures p in x && p in y && x[p] == y[p]
    {
      StepCovers(files, imports, x, p);
      StepCovers(files, imports, y, p);
      SumZero(files, z, p);
      assert z(p) == Abs(RankOf(x)(p) - RankOf(y)(p));
    }
    assert forall p :: p in x <==> p in y;
  }

  lemma StepCovers(files: seq<Path>, imports: seq<Import>, rank: map<Path, real>, p: Path)
    requires p in files
    ensures p in Step(files, imports, rank)
  {}

  /** Successive rankings draw together at the same rate. */
  lemma {:induction false} IterationsConverge(files: seq<Path>, imports: seq<Import>, k: nat)
    requires 0 < |files| <= 65535
    requires Distinct(files) && DistinctSources(imports) && DegreesFit(imports)
    ensures Distance(files, Ranks(files, imports, k + 1), Ranks(files, imports, k))
         <= Power(DAMPING, k) * Distance(files, Ranks(files, imports, 1), Ranks(files, imports, 0))
  {
    hide Distance, Step, Distinct, DistinctSources;
    if k > 0 {
      var start := Distance(files, Ranks(files, imports, 1), Ranks(files, imports, 0));
      var before := Distance(files, Ranks(files, imports, k), Ranks(files, imports, k - 1));
      IterationsConverge(files, imports, k - 1);
      RanksBounded(files, imports, k);
      RanksBounded(files, imports, k - 1);
      StepContracts(files, imports, Ranks(files, imports, k), Ranks(files, imports, k - 1));
      assert DAMPING * before <= DAMPING * (Power(DAMPING, k - 1) * start);
      Scale(Power(DAMPING, k - 1), start);
    }
  }

  // ----- The loops -----

  /** `from` once for every time `p` occurs among its targets. */
  function SourcesIn(targets: seq<Path>, from: Path, p: Path): seq<Path> {
    if targets == [] then []
    else SourcesIn(targets[..|targets| - 1], from, p) + if targets[|targets| - 1] == p then [from] else []
  }

  /** The files that import `p`, in order. */
  function Sources(imports: seq<Import>, p: Path): seq<Path> {
    if imports == [] then []
    else
      var last := imports[|imports| - 1];
      Sources(imports[..|imports| - 1], p) + SourcesIn(last.targets, last.from, p)
  }

  function Give(rank: map<Path, real>, outDegree: map<Path, real>, src: Path): real {
    var deg := if src in outDegree then outDegree[src] else 1.0;
    if deg > 0.0 then DAMPING * RankOf(rank)(src) / deg else 0.0
  }

  function Contribution(rank: map<Path, real>, outDegree: map<Path, real>, sources: seq<Path>): real {
    if sources == [] then 0.0
    else Contribution(rank, outDegree, sources[..|sources| - 1]) + Give(rank, outDegree, sources[|sources| - 1])
  }

  ghost predicate Degrees(imports: seq<Import>, outDegree: map<Path, real>) {
    forall i :: 0 <= i < |imports| && imports[i].targets != [] ==>
      imports[i].from in outDegree && outDegree[imports[i].from] == Clamp(|imports[i].targets|)
  }

  lemma {:induction false} ContributionAppend(rank: map<Path, real>, outDegree: map<Path, real>, a: seq<Path>,
      b: seq<Path>)
    ensures Contribution(rank, outDegree, a + b) == Contribution(rank, outDegree, a) + Contribution(rank, outDegree, b)
    decreases |b|
  {
    hide Give;
    if b == [] {
      assert a + b == a;
    } else {
      var b' := b[..|b| - 1];
      ContributionAppend(rank, outDegree, a, b');
      assert (a + b)[..|a + b| - 1] == a + b';
    }
  }

  lemma {:induction false} SourcesReceive(rank: map<Path, real>, outDegree: map<Path, real>, targets: seq<Path>,
      from: Path, p: Path)
    ensures Contribution(rank, outDegree, SourcesIn(targets, from, p)) ==
            Received(targets, p, Give(rank, outDegree, from))
  {
    hide Give;
    if targets != [] {
      var init := targets[..|targets| - 1];
      SourcesReceive(rank, outDegree, init, from, p);
      var last := if targets[|targets| - 1] == p then [from] else [];
      ContributionAppend(rank, outDegree, SourcesIn(init, from, p), last);
      assert [from][..0] == [];
    }
  }

  /** Summing over the list of sources is summing over the edges. */
  lemma {:induction false} SourcesFlow(rank: map<Path, real>, outDegree: map<Path, real>, imports: seq<Import>, p: Path)
    requires Degrees(imports, outDegree)
    ensures Contribution(rank, outDegree, Sources(imports, p)) == Flow(imports, RankOf(rank), p)
  {
    if imports != [] {
      var init, last := imports[..|imports| - 1], imports[|imports| - 1];
      SourcesFlow(rank, outDegree, init, p);
      SourcesReceive(rank, outDegree, last.targets, last.from, p);
      ContributionAppend(rank, outDegree, Sources(init, p), SourcesIn(last.targets, last.from, p));
      GiveIsShare(rank, outDegree, last);
    }
  }

  lemma GiveIsShare(rank: map<Path, real>, outDegree: map<Path, real>, e: Import)
    requires e.targets != [] ==> e.from in outDegree && outDegree[e.from] == Clamp(|e.targets|)
    ensures e.targets != [] ==> Give(rank, outDegree, e.from) == Share(RankOf(rank)(e.from), e.targets)
  {}

  function SourcesOf(incoming: map<Path, seq<Path>>, p: Path): seq<Path> {
    if p in incoming then incoming[p] else []
  }

  /** `incoming` lists the sources along the first `i` imports and the first `j` targets of the next. */
  ghost predicate Lists(incoming: map<Path, seq<Path>>, imports: seq<Import>, i: nat, j: nat) {
    && i < |imports| && j <= |imports[i].targets|
    && forall p ::
      SourcesOf(incoming, p) == Sources(imports[..i], p) + SourcesIn(imports[i].targets[..j], imports[i].from, p)
  }

  lemma PushSource(incoming: map<Path, seq<Path>>, imports: seq<Import>, i: nat, j: nat)
    requires Lists(incoming, imports, i, j) && j < |imports[i].targets|
    ensures var t := imports[i].targets[j];
            Lists(incoming[t := SourcesOf(incoming, t) + [imports[i].from]], imports, i, j + 1)
  {
    hide Sources;
    var targets, from := imports[i].targets, imports[i].from;
    var t := targets[j];
    assert targets[..j + 1][..j] == targets[..j];
    var next := incoming[t := SourcesOf(incoming, t) + [from]];
    forall p
      ensures SourcesOf(next, p) == Sources(imports[..i], p) + SourcesIn(targets[..j + 1], from, p)
    {
      assert SourcesOf(incoming, p) == Sources(imports[..i], p) + SourcesIn(targets[..j], from, p);
    }
  }

  lemma AllPushed(incoming: map<Path, seq<Path>>, imports: seq<Import>, i: nat)
    requires i < |imports| && Lists(incoming, imports, i, |imports[i].targets|)
    ensures forall p :: SourcesOf(incoming, p) == Sources(imports[..i + 1], p)
  {
    hide SourcesIn;
    var targets := imports[i].targets;
    assert targets[..|targets|] == targets && imports[..i + 1][..i] == imports[..i];
  }

  method CollectEdges(imports: seq<Import>) returns (incoming: map<Path, seq<Path>>, outDegree: map<Path, real>)
    requires DistinctSources(imports)
    ensures Degrees(imports, outDegree)
    ensures forall p :: SourcesOf(incoming, p) == Sources(imports, p)
  {
    hide Sources, SourcesIn, Lists;
    incoming := map[];
    outDegree := map[];
    NoEdges(imports);
    for i := 0 to |imports|
      invariant Degrees(imports[..i], outDegree)
      invariant forall p :: SourcesOf(incoming, p) == Sources(imports[..i], p)
    {
      var from, targets := imports[i].from, imports[i].targets;
      NoTargets(incoming, imports, i);
      var deg := Clamp(|targets|);
      if deg == 0.0 {
        AllPushed(incoming, imports, i);
        continue;
      }
      outDegree := outDegree[from := deg];
      for j := 0 to |targets|
        invariant Lists(incoming, imports, i, j)
      {
        var t := targets[j];
        PushSource(incoming, imports, i, j);
        incoming := incoming[t := (if t in incoming then incoming[t] else []) + [from]];
      }
      AllPushed(incoming, imports, i);
    }
    assert imports[..|imports|] == imports;
  }

  lemma NoEdges(imports: seq<Import>)
    ensures forall p :: Sources(imports[..0], p) == []
  {}

  lemma NoTargets(incoming: map<Path, seq<Path>>, imports: seq<Import>, i: nat)
    requires i < |imports| && forall p :: SourcesOf(incoming, p) == Sources(imports[..i], p)
    ensures Lists(incoming, imports, i, 0)
  {
    hide Sources;
  }

  /** `next` is the base plus what the listed sources give. */
  ghost predicate Given(next: map<Path, real>, files: seq<Path>, base: real, incoming: map<Path, seq<Path>>,
                        outDegree: map<Path, real>, rank: map<Path, real>, todo: set<Path>) {
    && (forall p :: p in next <==> p in files)
    && (forall p :: p in files ==>
          next[p] == base + if p in todo then 0.0 else Contribution(rank, outDegree, SourcesOf(incoming, p)))
  }

  method Iterate(files: seq<Path>, base: real, incoming: map<Path, seq<Path>>, outDegree: map<Path, real>,
      rank: map<Path, real>)
    returns (next: map<Path, real>)
    ensures Given(next, files, base, incoming, outDegree, rank, {})
  {
    hide Contribution, Give, Given;
    next := map p | p in files :: base;
    var todo := incoming.Keys;
    GivenStart(files, base, incoming, outDegree, rank);
    while todo != {}
      invariant todo <= incoming.Keys
      invariant Given(next, files, base, incoming, outDegree, rank, todo)
      decreases |todo|
    {
      var path :| path in todo;
      if path in next {
        var sources := incoming[path];
        var contrib := 0.0;
        NoContribution(rank, outDegree, sources);
        for i := 0 to |sources|
          invariant contrib == Contribution(rank, outDegree, sources[..i])
        {
          ContributionPush(rank, outDegree, sources, i);
          contrib := contrib + Give(rank, outDegree, sources[i]);
        }
        assert sources[..|sources|] == sources;
        GivenStep(next, files, base, incoming, outDegree, rank, todo, path);
        next := next[path := next[path] + contrib];
      } else {
        GivenSkip(next, files, base, incoming, outDegree, rank, todo, path);
      }
      todo := todo - {path};
    }
  }

  lemma GivenStart(files: seq<Path>, base: real, incoming: map<Path, seq<Path>>, outDegree: map<Path, real>,
      rank: map<Path, real>)
    ensures Given(map p | p in files :: base, files, base, incoming, outDegree, rank, incoming.Keys)
  {}

  lemma GivenStep(next: map<Path, real>, files: seq<Path>, base: real, incoming: map<Path, seq<Path>>,
                  outDegree: map<Path, real>, rank: map<Path, real>, todo: set<Path>, path: Path)
    requires Given(next, files, base, incoming, outDegree, rank, todo) && path in todo && path in next &&
             path in incoming
    ensures Given(next[path := next[path] + Contribution(rank, outDegree, incoming[path])], files, base, incoming,
            outDegree, rank, todo - {path})
  {
    hide Contribution;
  }

  lemma GivenSkip(next: map<Path, real>, files: seq<Path>, base: real, incoming: map<Path, seq<Path>>,
                  outDegree: map<Path, real>, rank: map<Path, real>, todo: set<Path>, path: Path)
    requires Given(next, files, base, incoming, outDegree, rank, todo) && path !in next
    ensures Given(next, files, base, incoming, outDegree, rank, todo - {path})
  {
    hide Contribution;
  }

  lemma NoContribution(rank: map<Path, real>, outDegree: map<Path, real>, sources: seq<Path>)
    ensures Contribution(rank, outDegree, sources[..0]) == 0.0
  {}

  lemma ContributionPush(rank: map<Path, real>, outDegree: map<Path, real>, sources: seq<Path>, i: nat)
    requires i < |sources|
    ensures Contribution(rank, outDegree, sources[..i + 1])
         == Contribution(rank, outDegree, sources[..i]) + Give(rank, outDegree, sources[i])
  {
    assert sources[..i + 1][..i] == sources[..i];
  }

  /** With the collected edges, one pass of the loops is one `Step`. */
  lemma GivenIsStep(files: seq<Path>, imports: seq<Import>, incoming: map<Path, seq<Path>>, outDegree: map<Path, real>,
                    rank: map<Path, real>, next: map<Path, real>)
    requires files != [] && Degrees(imports, outDegree)
    requires forall p :: SourcesOf(incoming, p) == Sources(imports, p)
    requires Given(next, files, Base(Clamp(|files|)), incoming, outDegree, rank, {})
    ensures next == Step(files, imports, rank)
  {
    hide Contribution, Sources, Flow, Base, Degrees;
    forall p | p in files
      ensures next[p] == Base(Clamp(|files|)) + Flow(imports, RankOf(rank), p)
    {
      SourcesFlow(rank, outDegree, imports, p);
    }
  }

  method ComputePagerank(files: seq<Path>, imports: seq<Import>) returns (rank: map<Path, real>)
    requires DistinctSources(imports)
    ensures if files == [] then rank == map[] else rank == Ranks(files, imports, 20)
    ensures 0 < |files| <= 65535 && Distinct(files) && DegreesFit(imports) ==> Ranked(files, imports, rank)
  {
    hide Given, Degrees, Sources, Step, Flow, Ranked;
    var n := Clamp(if |files| > 1 then |files| else 1);
    var base := (1.0 - DAMPING) / n;
    var incoming, outDegree := CollectEdges(imports);
    rank := map p | p in files :: 1.0 / n;
    for k := 0 to ITERATIONS
      invariant if files == [] then rank == map[] else rank == Ranks(files, imports, k)
    {
      var next := Iterate(files, base, incoming, outDegree, rank);
      if files == [] {
        NothingGiven(next, base, incoming, outDegree, rank);
      } else {
        GivenIsStep(files, imports, incoming, outDegree, rank, next);
      }
      rank := next;
    }
    if 0 < |files| <= 65535 && Distinct(files) && DegreesFit(imports) {
      RanksAreRanked(files, imports);
    }
  }

  predicate Imported(imports: seq<Import>, p: Path) {
    exists i :: 0 <= i < |imports| && p in imports[i].targets
  }

  /** What a ranking of `files` promises, in numbers. */
  ghost predicate Ranked(files: seq<Path>, imports: seq<Import>, rank: map<Path, real>)
    requires files != []
  {
    var n := |files| as real;
    && (forall p :: p in files <==> p in rank)
    && (forall p :: p in files ==> rank[p] >= 0.15 / n && (!Imported(imports, p) ==> rank[p] == 0.15 / n))
    && (forall fixed :: Step(files, imports, fixed) == fixed ==>
          Distance(files, rank, fixed) <= Power(0.85, 20) * Distance(files, map p | p in files :: 1.0 / n, fixed))
  }

  lemma RanksAreRanked(files: seq<Path>, imports: seq<Import>)
    requires 0 < |files| <= 65535 && DistinctSources(imports) && Distinct(files) && DegreesFit(imports)
    ensures Ranked(files, imports, Ranks(files, imports, 20))
  {
    hide Step, Distance, Power, Distinct, DistinctSources, DegreesFit, Ranks;
    var n := |files| as real;
    RanksBounded(files, imports, 20);
    BaseInNumbers(|files|);
    StartInNumbers(files, imports);
    forall p | p in files && !Imported(imports, p)
      ensures Ranks(files, imports, 20)[p] == 0.15 / n
    {
      UnimportedHasBase(files, imports, 20, p);
    }
    forall fixed | Step(files, imports, fixed) == fixed
      ensures Distance(files, Ranks(files, imports, 20), fixed) <=
              Power(0.85, 20) * Distance(files, map p | p in files :: 1.0 / n, fixed)
    {
      RanksConverge(files, imports, fixed, 20);
    }
  }

  lemma BaseInNumbers(n: nat)
    requires 0 < n
    ensures Base(Clamp(n)) == 0.15 / (if n <= 65535 then n as real else 65535.0)
  {}

  lemma StartInNumbers(files: seq<Path>, imports: seq<Import>)
    requires 0 < |files| <= 65535
    ensures Ranks(files, imports, 0) == map p | p in files :: 1.0 / |files| as real
  {}

  // ----- One iteration, edge by edge, in numbers -----

  lemma {:induction false} ReceivedDistinct(targets: seq<Path>, p: Path, share: real)
    requires Distinct(targets)
    ensures Received(targets, p, share) == if p in targets then share else 0.0
  {
    if targets != [] {
      var n := |targets| - 1;
      assert targets == targets[..n] + [targets[n]];
      ReceivedDistinct(targets[..n], p, share);
    }
  }

  /** Without imports a file gets its share of the 15 percent; each import of it by a file adds 85 percent of that
      file's rank, divided by how many files that file imports. */
  lemma StepByEdges(files: seq<Path>, imports: seq<Import>, e: Import, rank: map<Path, real>, p: Path)
    requires p in files
    requires Distinct(e.targets) && |e.targets| <= 65535
    ensures Step(files, [], rank)[p] == 0.15 / (if |files| <= 65535 then |files| as real else 65535.0)
    ensures Step(files, imports + [e], rank)[p] == Step(files, imports, rank)[p] +
            if p in e.targets then 0.85 * (if e.from in rank then rank[e.from] else 0.0) / |e.targets| as real else 0.0
  {
    hide Flow, Received;
    BaseInNumbers(|files|);
    NoFlow(RankOf(rank), p);
    FlowPush(imports, e, RankOf(rank), p);
    if e.targets != [] {
      ReceivedDistinct(e.targets, p, Share(RankOf(rank)(e.from), e.targets));
    }
  }

  lemma NoFlow(z: Path -> real, p: Path)
    ensures Flow([], z, p) == 0.0
  {}

  lemma FlowPush(imports: seq<Import>, e: Import, z: Path -> real, p: Path)
    ensures Flow(imports + [e], z, p) ==
            Flow(imports, z, p) + if e.targets == [] then 0.0 else Received(e.targets, p, Share(z(e.from), e.targets))
  {
    assert (imports + [e])[..|imports|] == imports;
  }

  lemma NothingGiven(next: map<Path, real>, base: real, incoming: map<Path, seq<Path>>, outDegree: map<Path, real>,
      rank: map<Path, real>)
    requires Given(next, [], base, incoming, outDegree, rank, {})
    ensures next == map[]
  {}
}
