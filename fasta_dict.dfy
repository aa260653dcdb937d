/**
 * `get_fasta_dict` (seqcap_align_2.py, lines 169-195): the read loop that
 * partitions records by locus, followed by the coverage filter.
 */
module FastaDict {
  import opened Wrappers
  import opened LocusKeys
  import opened Partition
  import opened Coverage

  /**
   * Partitions `records` and drops undercovered loci. A Failure carries the
   * index of the first record whose identifier has no '|', where Python
   * raises IndexError and no dictionary is returned.
   */
  method GetFastaDict(records: seq<Record>, faircloth: bool, ambiguous: bool, notstrict: bool, species: int)
    returns (r: Result<Loci, nat>)
    ensures r.Failure? <==> !AllKeyed(records, faircloth)
    ensures r.Failure? ==>
      r.error < |records| && '|' !in records[r.error].identifier
      && AllKeyed(records[..r.error], faircloth)
    ensures r.Success? ==>
      var partition := PartitionOf(records, faircloth, ambiguous);
      (forall k :: k in r.value <==> k in partition && Survives(|partition[k]|, notstrict, species))
      && (forall k :: k in r.value ==> r.value[k] == partition[k])
  {
    var loci := new LocusDict();
    var i := 0;
    while i < |records|
      invariant 0 <= i <= |records|
      invariant AllKeyed(records[..i], faircloth)
      invariant fresh(loci)
      invariant loci.groups == PartitionOf(records[..i], faircloth, ambiguous)
    {
      var record := records[i];
      var key := LocusKey(record.identifier, faircloth);
      if key.None? {
        return Failure(i);
      }
      loci := BuildLocusDict(loci, key.value, record, ambiguous);
      assert records[..i + 1][..i] == records[..i];
      i := i + 1;
    }
    assert records[..i] == records;
    DropUndercovered(loci, notstrict, species);
    r := Success(loci.groups);
  }
}
