/**
 * `write_alignments_to_outdir` (seqcap_align_2.py, lines 209-227): one file
 * per trimmed alignment, named after its locus with the format's extension;
 * an untrimmed result writes nothing and is only logged as dropped. The
 * output directory is modelled as the map from path to contents of the files
 * the call writes (the directory is empty beforehand).
 */
module Output {
  import opened Wrappers
  import opened Jobs

  /** The output formats of the `formats` table. */
  datatype Format = Clustal | Emboss | Fasta | Nexus | Phylip | Stockholm

  /** `formats[format]`. */
  function Extension(format: Format): string
  {
    match format
    case Clustal => ".clw"
    case Emboss => ".emboss"
    case Fasta => ".fa"
    case Nexus => ".nex"
    case Phylip => ".phylip"
    case Stockholm => ".stockholm"
  }

  /** The directory prefix `os.path.join(dir, name)` puts before a relative `name`. */
  function JoinPrefix(dir: string): string
  {
    if dir == [] || dir[|dir| - 1] == '/' then dir else dir + "/"
  }

  /**
   * `os.path.join(dir, name)` on POSIX: an absolute `name` replaces `dir`;
   * otherwise the result is `dir`, at most one inserted '/', then `name`.
   */
  function PathJoin(dir: string, name: string): (path: string)
    ensures |name| > 0 && name[0] == '/' ==> path == name
    ensures (|name| == 0 || name[0] != '/') ==>
      |dir| + |name| <= |path| <= |dir| + |name| + 1
      && path[..|dir|] == dir && path[|path| - |name|..] == name
    ensures (|name| == 0 || name[0] != '/') ==>
      (|path| == |dir| + |name| + 1 <==> dir != [] && dir[|dir| - 1] != '/')
      && (|path| == |dir| + |name| + 1 ==> path[|dir|] == '/')
  {
    if |name| > 0 && name[0] == '/' then name else JoinPrefix(dir) + name
  }

  /** `"{}{}".format(os.path.join(outdir, locus), formats[format])`: the joined path, then the extension. */
  function OutName(outdir: string, locus: string, format: Format): (name: string)
    ensures |name| >= |Extension(format)|
    ensures name[|name| - |Extension(format)|..] == Extension(format)
    ensures name[..|name| - |Extension(format)|] == PathJoin(outdir, locus)
  {
    PathJoin(outdir, locus) + Extension(format)
  }

  /**
   * A locus key without '/': its output file is a plain file name directly
   * inside the output directory, which `main` has just created.
   */
  predicate PlainName(locus: string)
  {
    '/' !in locus
  }

  /** Distinct plain loci get distinct output paths. */
  lemma OutNameInjective(outdir: string, a: string, b: string, format: Format)
    requires PlainName(a) && PlainName(b)
    requires OutName(outdir, a, format) == OutName(outdir, b, format)
    ensures a == b
  {
    var p, e := JoinPrefix(outdir), Extension(format);
    assert OutName(outdir, a, format) == p + a + e;
    assert OutName(outdir, b, format) == p + b + e;
    assert a == (p + a + e)[|p|..|p| + |a|];
    assert b == (p + b + e)[|p|..|p| + |b|];
  }

  /**
   * The files present after the results have been handled in order; a later
   * write to a path replaces an earlier one, so there are never more files
   * than results.
   */
  function Written<A>(outdir: string, alignments: seq<Aligned<A>>, format: Format, render: (A, Format) -> string)
    : (files: map<string, string>)
    ensures |files.Keys| <= |alignments|
    decreases |alignments|
  {
    if alignments == [] then map[]
    else
      var n := |alignments| - 1;
      var files := Written(outdir, alignments[..n], format, render);
      match alignments[n].trimmed
      case Some(aln) =>
        var path := OutName(outdir, alignments[n].locus, format);
        assert files[path := render(aln, format)].Keys <= files.Keys + {path};
        files[path := render(aln, format)]
      case None => files
  }

  /** The loci logged as dropped, in result order. */
  function DroppedLoci<A>(alignments: seq<Aligned<A>>): seq<string>
    decreases |alignments|
  {
    if alignments == [] then []
    else
      var n := |alignments| - 1;
      DroppedLoci(alignments[..n]) + (if alignments[n].trimmed.None? then [alignments[n].locus] else [])
  }

  /** A locus is logged as dropped if and only if some result for it has no trimmed alignment. */
  lemma {:induction false} DroppedMembers<A>(alignments: seq<Aligned<A>>, locus: string)
    ensures locus in DroppedLoci(alignments) <==>
      exists i :: 0 <= i < |alignments| && alignments[i].trimmed.None? && alignments[i].locus == locus
    decreases |alignments|
  {
    if alignments != [] {
      var n := |alignments| - 1;
      var prefix := alignments[..n];
      DroppedMembers(prefix, locus);
      if locus in DroppedLoci(prefix) {
        var i :| 0 <= i < |prefix| && prefix[i].trimmed.None? && prefix[i].locus == locus;
        assert alignments[i] == prefix[i];
      }
      if exists i :: 0 <= i < |alignments| && alignments[i].trimmed.None? && alignments[i].locus == locus {
        var i :| 0 <= i < |alignments| && alignments[i].trimmed.None? && alignments[i].locus == locus;
        if i < n {
          assert prefix[i] == alignments[i];
        }
      }
    }
  }

  /** The loop of lines 219-227. */
  method WriteAlignments<A>(outdir: string, alignments: seq<Aligned<A>>, format: Format, render: (A, Format) -> string)
    returns (files: map<string, string>, dropped: seq<string>)
    ensures files == Written(outdir, alignments, format, render)
    ensures dropped == DroppedLoci(alignments)
  {
    files, dropped := map[], [];
    var i := 0;
    while i < |alignments|
      invariant 0 <= i <= |alignments|
      invariant files == Written(outdir, alignments[..i], format, render)
      invariant dropped == DroppedLoci(alignments[..i])
    {
      var result := alignments[i];
      if result.trimmed.Some? {
        files := files[OutName(outdir, result.locus, format) := render(result.trimmed.value, format)];
      } else {
        dropped := dropped + [result.locus];
      }
      assert alignments[..i + 1][..i] == alignments[..i];
      i := i + 1;
    }
    assert alignments[..i] == alignments;
  }

  /** Written read from the back: the last result writes its own path or nothing. */
  lemma WrittenLast<A>(outdir: string, alignments: seq<Aligned<A>>, format: Format,
                       render: (A, Format) -> string, p: string)
    requires alignments != []
    ensures var n := |alignments| - 1;
      p in Written(outdir, alignments, format, render) <==>
        p in Written(outdir, alignments[..n], format, render)
        || (alignments[n].trimmed.Some? && p == OutName(outdir, alignments[n].locus, format))
  {
  }

  /** Every result with a trimmed alignment has its file written. */
  lemma {:induction false} WrittenComplete<A>(outdir: string, alignments: seq<Aligned<A>>, format: Format,
                                              render: (A, Format) -> string, i: nat)
    requires i < |alignments| && alignments[i].trimmed.Some?
    ensures OutName(outdir, alignments[i].locus, format) in Written(outdir, alignments, format, render)
    decreases |alignments|
  {
    var n := |alignments| - 1;
    WrittenLast(outdir, alignments, format, render, OutName(outdir, alignments[i].locus, format));
    if i < n {
      assert alignments[..n][i] == alignments[i];
      WrittenComplete(outdir, alignments[..n], format, render, i);
    }
  }

  /** Every written path belongs to a result with a trimmed alignment; an untrimmed result writes nothing. */
  lemma {:induction false} WrittenSound<A>(outdir: string, alignments: seq<Aligned<A>>, format: Format,
                                           render: (A, Format) -> string, p: string)
    returns (i: nat)
    requires p in Written(outdir, alignments, format, render)
    ensures i < |alignments| && alignments[i].trimmed.Some?
    ensures p == OutName(outdir, alignments[i].locus, format)
    decreases |alignments|
  {
    assert alignments != [];
    var n := |alignments| - 1;
    WrittenLast(outdir, alignments, format, render, p);
    if p in Written(outdir, alignments[..n], format, render) {
      i := WrittenSound(outdir, alignments[..n], format, render, p);
      assert alignments[..n][i] == alignments[i];
    } else {
      i := n;
    }
  }

  /**
   * When all loci are plain names and no other result shares its locus, a trimmed
   * result's file holds exactly that result's rendering: no other write
   * replaces it.
   */
  lemma {:induction false} WrittenContent<A>(outdir: string, alignments: seq<Aligned<A>>, format: Format,
                                             render: (A, Format) -> string, i: nat)
    requires i < |alignments| && alignments[i].trimmed.Some?
    requires forall j :: 0 <= j < |alignments| ==> PlainName(alignments[j].locus)
    requires forall j :: 0 <= j < |alignments| && j != i ==> alignments[j].locus != alignments[i].locus
    ensures OutName(outdir, alignments[i].locus, format) in Written(outdir, alignments, format, render)
    ensures Written(outdir, alignments, format, render)[OutName(outdir, alignments[i].locus, format)]
            == render(alignments[i].trimmed.value, format)
    decreases |alignments|
  {
    var n := |alignments| - 1;
    var prefix := alignments[..n];
    if i < n {
      assert prefix[i] == alignments[i];
      assert forall j :: 0 <= j < |prefix| ==> prefix[j] == alignments[j];
      WrittenContent(outdir, prefix, format, render, i);
      if alignments[n].trimmed.Some?
         && OutName(outdir, alignments[n].locus, format) == OutName(outdir, alignments[i].locus, format) {
        OutNameInjective(outdir, alignments[n].locus, alignments[i].locus, format);
      }
    }
  }
}
