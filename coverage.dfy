/**
 * The coverage filter of `get_fasta_dict` (seqcap_align_2.py, lines 183-195):
 * loci are scanned through a snapshot and deleted from the live dictionary
 * when they hold too few records.
 */
module Coverage {
  import opened Wrappers
  import opened Partition

  /** A locus with `count` records is kept: at least 3 under --incomplete-matrix, at least `species` otherwise. */
  predicate Survives(count: nat, notstrict: bool, species: int)
  {
    if notstrict then count >= 3 else count >= species
  }

  /**
   * The filter as intended: walks a value copy of the dictionary (the
   * `copy.deepcopy` snapshot) in an unspecified order and deletes each locus
   * that fails the policy from the live dictionary.
   */
  method DropUndercovered(loci: LocusDict, notstrict: bool, species: int)
    modifies loci
    ensures forall k :: k in loci.groups <==>
      k in old(loci.groups) && Survives(|old(loci.groups)[k]|, notstrict, species)
    ensures forall k :: k in loci.groups ==> loci.groups[k] == old(loci.groups)[k]
  {
    var snapshot := loci.groups;
    var pending := snapshot.Keys;
    while pending != {}
      invariant pending <= snapshot.Keys
      invariant forall k :: k in loci.groups <==>
        k in snapshot && (k in pending || Survives(|snapshot[k]|, notstrict, species))
      invariant forall k :: k in loci.groups ==> loci.groups[k] == snapshot[k]
      decreases pending
    {
      var locus :| locus in pending;
      var data := snapshot[locus];
      if notstrict {
        if |data| < 3 {
          loci.Delete(locus);
        }
      } else {
        if |data| < species {
          loci.Delete(locus);
        }
      }
      pending := pending - {locus};
    }
  }

  /** The exception Python raises for a format string mixing `{0}` and `{}`. */
  datatype FormatError = ValueError

  /** Strict mode and some locus has fewer than `species` records. */
  predicate StrictShortfall(loci: Loci, notstrict: bool, species: int)
  {
    !notstrict && exists k :: k in loci && |loci[k]| < species
  }

  /**
   * The filter as written: in strict mode the warning after `del loci[locus]`
   * formats "...{0}...{}...", which raises ValueError, so the first short
   * locus deleted ends the whole call with that exception.
   */
  method DropUndercoveredAsWritten(loci: LocusDict, notstrict: bool, species: int)
    returns (raised: Option<FormatError>)
    modifies loci
    ensures raised.Some? <==> StrictShortfall(old(loci.groups), notstrict, species)
    ensures raised.None? ==>
      (forall k :: k in loci.groups <==>
         k in old(loci.groups) && Survives(|old(loci.groups)[k]|, notstrict, species))
      && (forall k :: k in loci.groups ==> loci.groups[k] == old(loci.groups)[k])
  {
    var snapshot := loci.groups;
    var pending := snapshot.Keys;
    while pending != {}
      invariant pending <= snapshot.Keys
      invariant forall k :: k in loci.groups <==>
        k in snapshot && (k in pending || Survives(|snapshot[k]|, notstrict, species))
      invariant forall k :: k in loci.groups ==> loci.groups[k] == snapshot[k]
      invariant !notstrict ==> forall k :: k in snapshot && k !in pending ==> |snapshot[k]| >= species
      decreases pending
    {
      var locus :| locus in pending;
      var data := snapshot[locus];
      if notstrict {
        if |data| < 3 {
          loci.Delete(locus);
        }
      } else {
        if |data| < species {
          loci.Delete(locus);
          return Some(ValueError);
        }
      }
      pending := pending - {locus};
    }
    raised := None;
  }

  /**
   * Loci A with 5 records and B with 2, four species required, strict mode:
   * the intended filter keeps A alone, but the code as written raises.
   */
  lemma StrictDropRaises(r: Record)
    ensures var loci := map["A" := [r, r, r, r, r], "B" := [r, r]];
      StrictShortfall(loci, false, 4)
      && Survives(|loci["A"]|, false, 4) && !Survives(|loci["B"]|, false, 4)
  {
    var loci := map["A" := [r, r, r, r, r], "B" := [r, r]];
    assert "B" in loci && |loci["B"]| < 4;
  }
}
