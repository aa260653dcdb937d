/**
 * `main` (seqcap_align_2.py, lines 230-253): partition and filter, one job per
 * surviving locus, dispatch, then write the Nexus files.
 */
module Pipeline {
  import opened Wrappers
  import opened Partition
  import opened Coverage
  import opened FastaDict
  import opened Jobs
  import opened Output

  /** The parsed command line, restricted to what the core reads. */
  datatype Args = Args(
    species: int, faircloth: bool, notstrict: bool, notrim: bool, window: int,
    proportion: real, threshold: real, maxDivergence: real, ambiguous: bool, cores: int)

  /** The option list line 239 builds for every job. */
  function OptionsOf(args: Args): Options
  {
    Options(args.window, args.threshold, args.notrim, args.proportion, args.maxDivergence)
  }

  /** A locus that survives filtering and that the aligner trims, so `main` writes its file. */
  predicate Emitted<A>(args: Args, trimmer: (seq<Record>, TrimMethod) -> Option<A>,
                       partition: Loci, locus: string)
  {
    locus in partition && Survives(|partition[locus]|, args.notstrict, args.species)
    && trimmer(partition[locus], TrimMethodFor(OptionsOf(args))).Some?
  }

  /**
   * A run over `records` with the aligner bound to `trimmer` and output
   * rendered by `render`. On success the result is the output directory:
   * a file `<outdir>/<locus>.nex` for exactly the surviving loci the aligner
   * trims and, when no locus key contains '/', each file holds that
   * locus's rendered alignment. With --notrim and an aligner whose 'notrim'
   * method always succeeds, every surviving locus gets its file.
   */
  method Run<A>(args: Args, records: seq<Record>, outdir: string,
                trimmer: (seq<Record>, TrimMethod) -> Option<A>, render: (A, Format) -> string)
    returns (r: Result<map<string, string>, nat>)
    ensures r.Failure? <==> !AllKeyed(records, args.faircloth)
    ensures r.Success? ==>
      var partition := PartitionOf(records, args.faircloth, args.ambiguous);
      forall p :: p in r.value <==>
        exists k :: Emitted(args, trimmer, partition, k) && p == OutName(outdir, k, Nexus)
    ensures r.Success? ==>
      var partition := PartitionOf(records, args.faircloth, args.ambiguous);
      (forall k :: k in partition ==> PlainName(k)) ==>
      forall k :: Emitted(args, trimmer, partition, k) ==>
        var p := OutName(outdir, k, Nexus);
        p in r.value
        && r.value[p] == render(trimmer(partition[k], TrimMethodFor(OptionsOf(args))).value, Nexus)
    ensures r.Success? && args.notrim && (forall s :: trimmer(s, NoTrim).Some?) ==>
      var partition := PartitionOf(records, args.faircloth, args.ambiguous);
      forall k :: k in partition && Survives(|partition[k]|, args.notstrict, args.species) ==>
        OutName(outdir, k, Nexus) in r.value
  {
    var fastaDict := GetFastaDict(records, args.faircloth, args.ambiguous, args.notstrict, args.species);
    if fastaDict.Failure? {
      return Failure(fastaDict.error);
    }
    var files := AlignAndWrite(fastaDict.value, OptionsOf(args), args.cores, outdir, trimmer, render);
    r := Success(files);
    SurvivorFiles(args, trimmer, render, outdir, PartitionOf(records, args.faircloth, args.ambiguous),
                  fastaDict.value, files);
  }

  /**
   * Lines 238-251 of `main`: one job per locus, dispatch, then the Nexus
   * files. A file exists exactly for the loci the aligner trims, holding that
   * locus's rendering when no key contains '/'.
   */
  method AlignAndWrite<A>(loci: Loci, options: Options, cores: int, outdir: string,
                          trimmer: (seq<Record>, TrimMethod) -> Option<A>, render: (A, Format) -> string)
    returns (files: map<string, string>)
    ensures forall p :: p in files <==>
      exists k :: k in loci && trimmer(loci[k], TrimMethodFor(options)).Some? && p == OutName(outdir, k, Nexus)
    ensures (forall k :: k in loci ==> PlainName(k)) ==>
      forall k :: k in loci && trimmer(loci[k], TrimMethodFor(options)).Some? ==>
        OutName(outdir, k, Nexus) in files
        && files[OutName(outdir, k, Nexus)] == render(trimmer(loci[k], TrimMethodFor(options)).value, Nexus)
  {
    var items := Items(loci);
    var params := BuildParams(items, options);
    var alignments := Dispatch(cores, params, trimmer);
    var dropped;
    files, dropped := WriteAlignments(outdir, alignments, Nexus, render);
    ghost var m := TrimMethodFor(options);
    assert forall i :: 0 <= i < |items| ==>
      alignments[i].locus == items[i].0 && alignments[i].trimmed == trimmer(items[i].1, m);
    FilesFromLoci(loci, items, alignments, outdir, m, trimmer, render);
    if forall k :: k in loci ==> PlainName(k) {
      ContentsFromLoci(loci, items, alignments, outdir, m, trimmer, render);
    }
  }

  /** Restating the files of the trimmed loci in terms of the partition before filtering. */
  lemma SurvivorFiles<A>(args: Args, trimmer: (seq<Record>, TrimMethod) -> Option<A>, render: (A, Format) -> string,
                         outdir: string, partition: Loci, loci: Loci, files: map<string, string>)
    requires forall k :: k in loci <==> k in partition && Survives(|partition[k]|, args.notstrict, args.species)
    requires forall k :: k in loci ==> loci[k] == partition[k]
    requires forall p :: p in files <==>
      exists k :: k in loci && trimmer(loci[k], TrimMethodFor(OptionsOf(args))).Some? && p == OutName(outdir, k, Nexus)
    requires (forall k :: k in loci ==> PlainName(k)) ==>
      forall k :: k in loci && trimmer(loci[k], TrimMethodFor(OptionsOf(args))).Some? ==>
        OutName(outdir, k, Nexus) in files
        && files[OutName(outdir, k, Nexus)] == render(trimmer(loci[k], TrimMethodFor(OptionsOf(args))).value, Nexus)
    ensures forall p :: p in files <==> exists k :: Emitted(args, trimmer, partition, k) && p == OutName(outdir, k, Nexus)
    ensures (forall k :: k in partition ==> PlainName(k)) ==>
      forall k :: Emitted(args, trimmer, partition, k) ==>
        var p := OutName(outdir, k, Nexus);
        p in files && files[p] == render(trimmer(partition[k], TrimMethodFor(OptionsOf(args))).value, Nexus)
    ensures args.notrim && (forall s :: trimmer(s, NoTrim).Some?) ==>
      forall k :: k in partition && Survives(|partition[k]|, args.notstrict, args.species) ==>
        OutName(outdir, k, Nexus) in files
  {
    var m := TrimMethodFor(OptionsOf(args));
    assert forall k :: Emitted(args, trimmer, partition, k) <==> k in loci && trimmer(loci[k], m).Some?;
  }

  /** The files written for the dispatched results are those of the trimmed loci. */
  lemma FilesFromLoci<A>(loci: Loci, items: seq<(string, seq<Record>)>, alignments: seq<Aligned<A>>,
                         outdir: string, m: TrimMethod,
                         trimmer: (seq<Record>, TrimMethod) -> Option<A>, render: (A, Format) -> string)
    requires |alignments| == |items|
    requires forall i :: 0 <= i < |items| ==> items[i].0 in loci && items[i].1 == loci[items[i].0]
    requires forall k :: k in loci ==> exists i :: 0 <= i < |items| && items[i].0 == k
    requires forall i :: 0 <= i < |items| ==>
      alignments[i].locus == items[i].0 && alignments[i].trimmed == trimmer(items[i].1, m)
    ensures forall p :: p in Written(outdir, alignments, Nexus, render) <==>
      exists k :: k in loci && trimmer(loci[k], m).Some? && p == OutName(outdir, k, Nexus)
  {
    forall p
      ensures p in Written(outdir, alignments, Nexus, render) ==>
        exists k :: k in loci && trimmer(loci[k], m).Some? && p == OutName(outdir, k, Nexus)
    {
      if p in Written(outdir, alignments, Nexus, render) {
        var i := WrittenSound(outdir, alignments, Nexus, render, p);
        assert items[i].0 in loci;
      }
    }
    forall k | k in loci && trimmer(loci[k], m).Some?
      ensures OutName(outdir, k, Nexus) in Written(outdir, alignments, Nexus, render)
    {
      var i :| 0 <= i < |items| && items[i].0 == k;
      assert alignments[i].trimmed.Some?;
      WrittenComplete(outdir, alignments, Nexus, render, i);
    }
  }

  /** With distinct plain-name keys, each trimmed locus's file holds its own rendering. */
  lemma ContentsFromLoci<A>(loci: Loci, items: seq<(string, seq<Record>)>, alignments: seq<Aligned<A>>,
                            outdir: string, m: TrimMethod,
                            trimmer: (seq<Record>, TrimMethod) -> Option<A>, render: (A, Format) -> string)
    requires |alignments| == |items|
    requires forall k :: k in loci ==> PlainName(k)
    requires forall i :: 0 <= i < |items| ==> items[i].0 in loci && items[i].1 == loci[items[i].0]
    requires forall i, j :: 0 <= i < j < |items| ==> items[i].0 != items[j].0
    requires forall k :: k in loci ==> exists i :: 0 <= i < |items| && items[i].0 == k
    requires forall i :: 0 <= i < |items| ==>
      alignments[i].locus == items[i].0 && alignments[i].trimmed == trimmer(items[i].1, m)
    ensures forall k :: k in loci && trimmer(loci[k], m).Some? ==>
      OutName(outdir, k, Nexus) in Written(outdir, alignments, Nexus, render)
      && Written(outdir, alignments, Nexus, render)[OutName(outdir, k, Nexus)] == render(trimmer(loci[k], m).value, Nexus)
  {
    forall k | k in loci && trimmer(loci[k], m).Some?
      ensures OutName(outdir, k, Nexus) in Written(outdir, alignments, Nexus, render)
      ensures Written(outdir, alignments, Nexus, render)[OutName(outdir, k, Nexus)] == render(trimmer(loci[k], m).value, Nexus)
    {
      var i :| 0 <= i < |items| && items[i].0 == k;
      assert alignments[i].trimmed.Some?;
      WrittenContent(outdir, alignments, Nexus, render, i);
    }
  }
}
