/**
 * Job building and dispatch (seqcap_align_2.py, `align` at lines 141-166 and
 * the `opts`/`params`/`map` steps of `main` at lines 239-248). The aligner
 * back-end is a function value: it receives the locus's records and the trim
 * method and yields a trimmed alignment or None.
 */
module Jobs {
  import opened Wrappers
  import opened Partition

  /** The per-job option list `[window, threshold, notrim, proportion, max_divergence]`, in that order. */
  datatype Options = Options(window: int, threshold: real, notrim: bool, proportion: real, maxDivergence: real)

  /** One element of `params`: `((name, sequences), opts)`. */
  datatype Job = Job(locus: string, sequences: seq<Record>, opts: Options)

  /** The arguments of `aln.trim_alignment`. */
  datatype TrimMethod =
    | NoTrim
    | Running(windowSize: int, proportion: real, threshold: real, maxDivergence: real)

  /** What `align` returns: the locus name it was given and the aligner's trimmed result. */
  datatype Aligned<A> = Aligned(locus: string, trimmed: Option<A>)

  /** `loci.items()`: every entry once, in the dictionary's own (unspecified) order. */
  method Items(loci: Loci) returns (items: seq<(string, seq<Record>)>)
    ensures |items| == |loci|
    ensures forall i :: 0 <= i < |items| ==> items[i].0 in loci && items[i].1 == loci[items[i].0]
    ensures forall i, j :: 0 <= i < j < |items| ==> items[i].0 != items[j].0
    ensures forall k :: k in loci ==> exists i :: 0 <= i < |items| && items[i].0 == k
  {
    items := [];
    var pending := loci.Keys;
    while pending != {}
      invariant pending <= loci.Keys
      invariant |items| + |pending| == |loci.Keys|
      invariant forall i :: 0 <= i < |items| ==>
        items[i].0 in loci && items[i].0 !in pending && items[i].1 == loci[items[i].0]
      invariant forall i, j :: 0 <= i < j < |items| ==> items[i].0 != items[j].0
      invariant forall k :: k in loci && k !in pending ==> exists i :: 0 <= i < |items| && items[i].0 == k
      decreases pending
    {
      var k :| k in pending;
      ghost var before := items;
      items := items + [(k, loci[k])];
      forall k' | k' in loci && k' !in pending - {k}
        ensures exists i :: 0 <= i < |items| && items[i].0 == k'
      {
        if k' == k {
          assert items[|items| - 1].0 == k';
        } else {
          var i :| 0 <= i < |before| && before[i].0 == k';
          assert items[i].0 == k';
        }
      }
      pending := pending - {k};
    }
  }

  /** Python 2's `zip` of entries with option lists: pairs up to the shorter length. */
  function Zip(items: seq<(string, seq<Record>)>, opts: seq<Options>): (params: seq<Job>)
    ensures |params| == if |items| < |opts| then |items| else |opts|
    ensures forall i :: 0 <= i < |params| ==> params[i] == Job(items[i].0, items[i].1, opts[i])
    decreases |items|
  {
    if items == [] || opts == [] then []
    else [Job(items[0].0, items[0].1, opts[0])] + Zip(items[1..], opts[1..])
  }

  /**
   * `params = zip(loci.items(), opts)` with one identical option list per
   * locus: one job per entry, in entry order, all with the same options.
   */
  function BuildParams(items: seq<(string, seq<Record>)>, options: Options): (params: seq<Job>)
    ensures |params| == |items|
    ensures forall i :: 0 <= i < |params| ==>
      params[i].locus == items[i].0 && params[i].sequences == items[i].1 && params[i].opts == options
  {
    Zip(items, seq(|items|, _ => options))
  }

  /** The trim method `align` picks: 'notrim' when asked, otherwise 'running' with the four thresholds. */
  function TrimMethodFor(opts: Options): (m: TrimMethod)
    ensures m.NoTrim? <==> opts.notrim
    ensures m.Running? ==>
      m.windowSize == opts.window && m.proportion == opts.proportion
      && m.threshold == opts.threshold && m.maxDivergence == opts.maxDivergence
  {
    if opts.notrim then NoTrim
    else Running(opts.window, opts.proportion, opts.threshold, opts.maxDivergence)
  }

  /**
   * `align`: the result is named after the job's own locus, and its trimmed
   * value is the aligner's outcome for the job's records under the chosen method.
   */
  function Align<A>(job: Job, trimmer: (seq<Record>, TrimMethod) -> Option<A>): (r: Aligned<A>)
    ensures r.locus == job.locus
    ensures r.trimmed == trimmer(job.sequences, TrimMethodFor(job.opts))
  {
    Aligned(job.locus, trimmer(job.sequences, TrimMethodFor(job.opts)))
  }

  /** `pool.map(align, params)`: results in submission order, whatever order workers finish in. */
  function PoolMap<A>(params: seq<Job>, trimmer: (seq<Record>, TrimMethod) -> Option<A>)
    : (alignments: seq<Aligned<A>>)
    ensures |alignments| == |params|
    ensures forall i :: 0 <= i < |params| ==> alignments[i].locus == params[i].locus
  {
    seq(|params|, i requires 0 <= i < |params| => Align(params[i], trimmer))
  }

  /** Python 2's builtin `map(align, params)`: applies `align` job after job. */
  method MapSequential<A>(params: seq<Job>, trimmer: (seq<Record>, TrimMethod) -> Option<A>)
    returns (alignments: seq<Aligned<A>>)
    ensures alignments == PoolMap(params, trimmer)
  {
    alignments := [];
    var i := 0;
    while i < |params|
      invariant 0 <= i <= |params|
      invariant alignments == PoolMap(params[..i], trimmer)
    {
      alignments := alignments + [Align(params[i], trimmer)];
      i := i + 1;
    }
    assert params[..i] == params;
  }

  /**
   * Lines 243-248: the pool for more than one core, plain `map` otherwise.
   * Either way result i carries job i's locus and its aligner outcome.
   */
  method Dispatch<A>(cores: int, params: seq<Job>, trimmer: (seq<Record>, TrimMethod) -> Option<A>)
    returns (alignments: seq<Aligned<A>>)
    ensures |alignments| == |params|
    ensures forall i :: 0 <= i < |params| ==>
      alignments[i].locus == params[i].locus
      && alignments[i].trimmed == trimmer(params[i].sequences, TrimMethodFor(params[i].opts))
  {
    if cores > 1 {
      alignments := PoolMap(params, trimmer);
    } else {
      alignments := MapSequential(params, trimmer);
    }
  }
}
